/**
 * The part of Node's `fs` module the core uses, over an in-memory tree.
 * A path is its list of components (`temp/job_7/output.mp4` is
 * ["temp", "job_7", "output.mp4"]); the disk maps every existing path to a
 * file or a directory node carrying its modification time in milliseconds.
 */
module FileSystem {
  import opened Wrappers

  type Name = string
  type Path = seq<Name>

  datatype Node = File(mtime: int) | Dir(mtime: int)

  /** The error readdir rejects with when the path names a file. */
  const NotADirectory: string := "ENOTDIR: not a directory, scandir"

  /** path.join(dir, name) for a single component. */
  function JoinPath(dir: Path, name: Name): (p: Path)
    ensures |p| == |dir| + 1 && p[..|dir|] == dir && p[|dir|] == name
  {
    dir + [name]
  }

  /** `p` is `d` itself or lies somewhere below it. */
  predicate Within(p: Path, d: Path) {
    d <= p
  }

  /** `p` is an entry directly inside `d`. */
  predicate IsChild(p: Path, d: Path) {
    |p| == |d| + 1 && d <= p
  }

  /** The directory an entry sits in. */
  function Parent(p: Path): (q: Path)
    requires p != []
    ensures |q| == |p| - 1 && q <= p
  {
    p[..|p| - 1]
  }

  /**
   * Every entry below the top level sits in a directory that exists; the
   * empty path is no entry. (The trigger keeps the solver from walking up
   * ancestors on its own: proofs name the parent they need.)
   */
  ghost predicate WellFormed(nodes: map<Path, Node>) {
    && [] !in nodes
    && forall p {:trigger Parent(p)} :: p in nodes && |p| > 1 ==> Parent(p) in nodes && nodes[Parent(p)].Dir?
  }

  /** The entries at or below `d`. */
  ghost function Tree(nodes: map<Path, Node>, d: Path): set<Path> {
    set p | p in nodes && Within(p, d)
  }

  /** The disk once `d` and everything below it are gone. */
  function RemoveTree(nodes: map<Path, Node>, d: Path): (r: map<Path, Node>)
    ensures forall p :: p in r <==> p in nodes && !Within(p, d)
    ensures forall p :: p in r ==> r[p] == nodes[p]
  {
    map p | p in nodes && !Within(p, d) :: nodes[p]
  }

  /** The names `readdir(d)` lists. */
  function ChildNames(nodes: map<Path, Node>, d: Path): set<Name> {
    set p | p in nodes && IsChild(p, d) :: p[|d|]
  }

  /** Every proper ancestor of an entry exists and is a directory. */
  lemma {:induction false} AncestorIsDir(nodes: map<Path, Node>, p: Path, k: nat)
    requires WellFormed(nodes) && p in nodes && 1 <= k < |p|
    ensures p[..k] in nodes && nodes[p[..k]].Dir?
    decreases |p|
  {
    var parent := Parent(p);
    if k < |parent| {
      AncestorIsDir(nodes, parent, k);
      assert parent[..k] == p[..k];
    } else {
      assert parent == p[..k];
    }
  }

  /** Every non-empty prefix of `p` shorter than `k` exists once `p[..k]` does. */
  lemma PrefixesExist(nodes: map<Path, Node>, p: Path, k: nat)
    requires WellFormed(nodes) && 1 <= k <= |p| && p[..k] in nodes
    ensures forall r :: r != [] && r <= p && |r| < k ==> r in nodes
  {
    forall r | r != [] && r <= p && |r| < k ensures r in nodes {
      AncestorIsDir(nodes, p[..k], |r|);
      assert p[..k][..|r|] == r;
    }
  }

  /** Creating a directory inside an existing one keeps the disk well formed. */
  lemma AddDirWellFormed(nodes: map<Path, Node>, q: Path, mtime: int)
    requires WellFormed(nodes) && q != [] && q !in nodes
    requires |q| == 1 || (Parent(q) in nodes && nodes[Parent(q)].Dir?)
    ensures WellFormed(nodes[q := Dir(mtime)])
  {
  }

  /** A file has nothing below it. */
  lemma FileIsLeaf(nodes: map<Path, Node>, f: Path, p: Path)
    requires WellFormed(nodes) && f in nodes && nodes[f].File?
    requires p in nodes && Within(p, f)
    ensures p == f
  {
    if p != f {
      assert p[..|f|] == f;
      AncestorIsDir(nodes, p, |f|);
      assert false;
    }
  }

  /** Removing a whole subtree keeps the disk well formed. */
  lemma RemoveTreeWellFormed(nodes: map<Path, Node>, d: Path)
    requires WellFormed(nodes)
    ensures WellFormed(RemoveTree(nodes, d))
  {
    var r := RemoveTree(nodes, d);
    forall p | p in r && |p| > 1
      ensures Parent(p) in r && r[Parent(p)].Dir?
    {
      assert Within(Parent(p), d) ==> Within(p, d);
    }
  }

  /** The disk once a file stamped `mtime` is written at `p`; a directory standing there is left alone. */
  function WithFile(nodes: map<Path, Node>, p: Path, mtime: int): map<Path, Node> {
    if p in nodes && nodes[p].Dir? then nodes else nodes[p := File(mtime)]
  }

  /** The disk once each of `names` is written as a file inside `dir`, in order. */
  function WithFiles(nodes: map<Path, Node>, dir: Path, names: seq<Name>, mtime: int): map<Path, Node>
    decreases |names|
  {
    if names == [] then nodes
    else WithFile(WithFiles(nodes, dir, names[..|names| - 1], mtime), JoinPath(dir, names[|names| - 1]), mtime)
  }

  /** Writing files into an existing directory keeps the disk well formed and the directory a directory. */
  lemma {:induction false} WithFilesWellFormed(nodes: map<Path, Node>, dir: Path, names: seq<Name>, mtime: int)
    requires WellFormed(nodes) && dir in nodes && nodes[dir].Dir?
    ensures WellFormed(WithFiles(nodes, dir, names, mtime))
    ensures dir in WithFiles(nodes, dir, names, mtime) && WithFiles(nodes, dir, names, mtime)[dir].Dir?
    decreases |names|
  {
    if names != [] {
      var rest := WithFiles(nodes, dir, names[..|names| - 1], mtime);
      WithFilesWellFormed(nodes, dir, names[..|names| - 1], mtime);
      var p := JoinPath(dir, names[|names| - 1]);
      if !(p in rest && rest[p].Dir?) {
        var r := rest[p := File(mtime)];
        forall q | q in r && |q| > 1 ensures Parent(q) in r && r[Parent(q)].Dir? {
          if q == p {
            assert Parent(q) == dir;
          }
        }
      }
    }
  }

  /** After the writes, `dir` lists what it listed before and every written name. */
  lemma {:induction false} WithFilesChildren(nodes: map<Path, Node>, dir: Path, names: seq<Name>, mtime: int)
    ensures forall n :: n in ChildNames(WithFiles(nodes, dir, names, mtime), dir) <==> n in ChildNames(nodes, dir) || n in names
    decreases |names|
  {
    if names != [] {
      var init := names[..|names| - 1];
      var last := names[|names| - 1];
      var rest := WithFiles(nodes, dir, init, mtime);
      WithFilesChildren(nodes, dir, init, mtime);
      var p := JoinPath(dir, last);
      var r := WithFiles(nodes, dir, names, mtime);
      assert r.Keys == rest.Keys + {p};
      forall n ensures n in ChildNames(r, dir) <==> n in ChildNames(rest, dir) || n == last {
        if n == last {
          assert p in r && IsChild(p, dir) && p[|dir|] == n;
        }
      }
      assert names == init + [last];
    }
  }

  class Disk {
    var nodes: map<Path, Node>

    ghost predicate Valid()
      reads this
    {
      WellFormed(nodes)
    }

    constructor (initial: map<Path, Node>)
      requires WellFormed(initial)
      ensures Valid() && nodes == initial
    {
      nodes := initial;
    }

    /** fs.readdirSync(d): every name in `d` once, in an order the model does not fix. */
    method ReadDir(d: Path) returns (names: seq<Name>)
      requires d in nodes && nodes[d].Dir?
      ensures forall i, j :: 0 <= i < j < |names| ==> names[i] != names[j]
      ensures forall n :: n in names <==> n in ChildNames(nodes, d)
    {
      var remaining := ChildNames(nodes, d);
      names := [];
      while remaining != {}
        invariant forall i, j :: 0 <= i < j < |names| ==> names[i] != names[j]
        invariant forall n :: n in names ==> n !in remaining
        invariant forall n :: n in ChildNames(nodes, d) <==> n in names || n in remaining
        decreases |remaining|
      {
        var n :| n in remaining;
        names := names + [n];
        remaining := remaining - {n};
      }
    }

    /** fs.unlink(p): removes a file; a missing path or a directory is an error. */
    method Unlink(p: Path) returns (ok: bool)
      requires Valid()
      modifies this
      ensures Valid()
      ensures ok <==> p in old(nodes) && old(nodes)[p].File?
      ensures nodes == if ok then old(nodes) - {p} else old(nodes)
    {
      ok := p in nodes && nodes[p].File?;
      if ok {
        nodes := nodes - {p};
      }
    }

    /** fs.rmdirSync(p): removes an empty directory; anything else is an error. */
    method Rmdir(p: Path) returns (ok: bool)
      requires Valid()
      modifies this
      ensures Valid()
      ensures ok <==> IsEmptyDir(old(nodes), p)
      ensures nodes == if ok then old(nodes) - {p} else old(nodes)
    {
      ok := IsEmptyDir(nodes, p);
      if ok {
        nodes := nodes - {p};
      }
    }

    /**
     * Writes a file stamped `mtime`: the parent must be an existing directory
     * (or the path a top-level one) and the path must not name a directory.
     */
    method WriteFile(p: Path, mtime: int) returns (ok: bool)
      requires Valid()
      modifies this
      ensures Valid()
      ensures ok <==> CanWrite(old(nodes), p)
      ensures nodes == if ok then old(nodes)[p := File(mtime)] else old(nodes)
    {
      ok := CanWrite(nodes, p);
      if ok {
        nodes := nodes[p := File(mtime)];
      }
    }

    /**
     * fs.mkdirSync(p, { recursive: true }): creates every missing directory
     * on the way to `p`, stamped `mtime`; fails, changing nothing, when a file
     * stands on the way.
     */
    method MkdirAll(p: Path, mtime: int) returns (ok: bool)
      requires Valid()
      modifies this
      ensures Valid()
      ensures ok <==> p != [] && NoFileOnPath(old(nodes), p)
      ensures ok ==> nodes == WithDirs(old(nodes), p, mtime)
      ensures ok ==> p in nodes && nodes[p].Dir?
      ensures !ok ==> nodes == old(nodes)
    {
      if p == [] {
        return false;
      }
      var k := 1;
      while k <= |p|
        invariant 1 <= k <= |p| + 1
        invariant Valid()
        invariant NoFileOnPath(old(nodes), p[..k - 1])
        invariant nodes == WithDirs(old(nodes), p[..k - 1], mtime)
      {
        var q := p[..k];
        if q in nodes && nodes[q].File? {
          MkdirBlocked(old(nodes), nodes, p, k, mtime);
          return false;
        }
        MkdirStep(old(nodes), nodes, p, k, mtime);
        if q !in nodes {
          nodes := nodes[q := Dir(mtime)];
        }
        k := k + 1;
      }
      assert p[..|p|] == p;
      ok := true;
    }

    /**
     * `if (!exists(p)) mkdir(p, { recursive: true })`: true when `p` already
     * existed or could be created; false, changing nothing, when mkdir throws.
     */
    method EnsureDir(p: Path, mtime: int) returns (ok: bool)
      requires Valid()
      modifies this
      ensures Valid()
      ensures ok <==> Ensured(old(nodes), p, mtime).Some?
      ensures nodes == if ok then Ensured(old(nodes), p, mtime).value else old(nodes)
    {
      if p in nodes {
        return true;
      }
      ok := MkdirAll(p, mtime);
    }
  }

  /** One step of `mkdir -p`: the next prefix is created if missing, and the result stays well formed. */
  lemma MkdirStep(start: map<Path, Node>, nodes: map<Path, Node>, p: Path, k: nat, mtime: int)
    requires WellFormed(nodes) && 1 <= k <= |p|
    requires NoFileOnPath(start, p[..k - 1]) && nodes == WithDirs(start, p[..k - 1], mtime)
    requires !(p[..k] in nodes && nodes[p[..k]].File?)
    ensures var next := if p[..k] in nodes then nodes else nodes[p[..k] := Dir(mtime)];
      && WellFormed(next)
      && NoFileOnPath(start, p[..k])
      && next == WithDirs(start, p[..k], mtime)
  {
    var q := p[..k];
    assert q[..k - 1] == p[..k - 1];
    if q !in nodes {
      AddDirWellFormed(nodes, q, mtime);
    }
    assert q in start ==> start[q].Dir?;
    WithDirsExtend(start, p, k, mtime);
    NoFileOnPathExtend(start, p, k);
  }

  /** `mkdir -p` meets a file: nothing was created before it, and the path is blocked. */
  lemma MkdirBlocked(start: map<Path, Node>, nodes: map<Path, Node>, p: Path, k: nat, mtime: int)
    requires WellFormed(start) && 1 <= k <= |p|
    requires nodes == WithDirs(start, p[..k - 1], mtime)
    requires p[..k] in nodes && nodes[p[..k]].File?
    ensures nodes == start && !NoFileOnPath(start, p)
  {
    assert p[..k] in start && p[..k] <= p;
    PrefixesExist(start, p, k);
    forall r | r != [] && r <= p[..k - 1]
      ensures r in start
    {
      assert r == p[..|r|];
    }
    WithDirsUnchanged(start, p[..k - 1], mtime);
  }

  /** A non-empty proper prefix of `p[..k]` is a prefix of `p[..k - 1]`. */
  lemma ShorterPrefix(q: Path, p: Path, k: nat)
    requires 1 <= k <= |p| && q <= p[..k] && q != p[..k]
    ensures q <= p[..k - 1]
  {
    assert q == p[..k][..|q|];
    assert q == p[..k - 1][..|q|];
  }

  /** `mkdir -p` one component further: the next prefix is created unless it exists. */
  lemma WithDirsExtend(nodes: map<Path, Node>, p: Path, k: nat, mtime: int)
    requires 1 <= k <= |p|
    ensures WithDirs(nodes, p[..k], mtime)
      == (var w := WithDirs(nodes, p[..k - 1], mtime); if p[..k] in nodes then w else w[p[..k] := Dir(mtime)])
  {
    var w := WithDirs(nodes, p[..k - 1], mtime);
    forall q | q in WithDirs(nodes, p[..k], mtime)
      ensures q in w || q == p[..k]
    {
      if q !in nodes && q != p[..k] {
        ShorterPrefix(q, p, k);
      }
    }
    assert p[..k - 1] <= p[..k];
  }

  /** A path without files on it stays so one component further when the next prefix is no file. */
  lemma NoFileOnPathExtend(nodes: map<Path, Node>, p: Path, k: nat)
    requires 1 <= k <= |p|
    requires NoFileOnPath(nodes, p[..k - 1])
    requires p[..k] in nodes ==> nodes[p[..k]].Dir?
    ensures NoFileOnPath(nodes, p[..k])
  {
    forall r | r in nodes && r != [] && r <= p[..k] && r != p[..k]
      ensures nodes[r].Dir?
    {
      ShorterPrefix(r, p, k);
    }
  }

  /** `mkdir -p` changes nothing when every directory on the way exists. */
  lemma WithDirsUnchanged(nodes: map<Path, Node>, p: Path, mtime: int)
    requires forall r :: r != [] && r <= p ==> r in nodes
    ensures WithDirs(nodes, p, mtime) == nodes
  {
  }

  predicate CanWrite(nodes: map<Path, Node>, p: Path) {
    && p != []
    && (|p| == 1 || (p[..|p| - 1] in nodes && nodes[p[..|p| - 1]].Dir?))
    && !(p in nodes && nodes[p].Dir?)
  }

  /** No prefix of `p` names a file. */
  predicate NoFileOnPath(nodes: map<Path, Node>, p: Path) {
    forall r :: r != [] && r <= p && r in nodes ==> nodes[r].Dir?
  }

  /** The non-empty prefixes of `p`: the directories `mkdir -p p` stands for. */
  function Prefixes(p: Path): (r: set<Path>)
    ensures forall q :: q in r <==> q != [] && q <= p
  {
    var r := set k | 1 <= k <= |p| :: p[..k];
    assert forall q :: q != [] && q <= p ==> q == p[..|q|];
    r
  }

  /** The disk after `mkdir -p p` succeeds: every missing prefix of `p` becomes a directory stamped `mtime`. */
  function WithDirs(nodes: map<Path, Node>, p: Path, mtime: int): (r: map<Path, Node>)
    ensures forall q :: q in r <==> q in nodes || (q != [] && q <= p)
    ensures forall q :: q in r ==> r[q] == if q in nodes then nodes[q] else Dir(mtime)
  {
    map q | q in nodes.Keys + Prefixes(p) :: if q in nodes then nodes[q] else Dir(mtime)
  }

  /**
   * The disk after `if (!exists(p)) mkdir(p, { recursive: true })`, or None
   * when mkdir throws: whatever exists at `p` (even a file) is left alone,
   * and existing entries never change.
   */
  function Ensured(nodes: map<Path, Node>, p: Path, mtime: int): (r: Option<map<Path, Node>>)
    ensures r.Some? <==> p in nodes || (p != [] && NoFileOnPath(nodes, p))
    ensures r.Some? ==> p in r.value && r.value[p] == (if p in nodes then nodes[p] else Dir(mtime))
    ensures r.Some? ==> forall q :: q in nodes ==> q in r.value && r.value[q] == nodes[q]
  {
    if p in nodes then Some(nodes)
    else if p != [] && NoFileOnPath(nodes, p) then Some(WithDirs(nodes, p, mtime))
    else None
  }

  /** Ensuring a directory a second time changes nothing. */
  lemma EnsuredIdempotent(nodes: map<Path, Node>, p: Path, mtime: int, later: int)
    requires Ensured(nodes, p, mtime).Some?
    ensures Ensured(Ensured(nodes, p, mtime).value, p, later) == Ensured(nodes, p, mtime)
  {
  }

  predicate IsEmptyDir(nodes: map<Path, Node>, p: Path) {
    p in nodes && nodes[p].Dir? && forall q :: q in nodes ==> !IsChild(q, p)
  }

  /** A subset is no larger; a subset missing a member is strictly smaller. */
  lemma SubsetSmaller<T>(a: set<T>, b: set<T>, x: T)
    requires a <= b - {x} && x in b
    ensures |a| < |b|
  {
    assert |b - {x}| == |b| - 1;
    SubsetCard(a, b - {x});
  }

  lemma SubsetCard<T>(a: set<T>, b: set<T>)
    requires a <= b
    ensures |a| <= |b|
  {
    assert b == a + (b - a);
  }
}
