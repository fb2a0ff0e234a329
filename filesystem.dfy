/** The filesystem the CSI driver works on (the os package and the afero.Fs
    capability). A state is a map from cleaned paths to directory and file
    nodes; the root "/" and the working directory "." always exist and are not
    entries of the map. Failures that depend on permissions or the device
    (EACCES, EIO, ENOSPC and the like) are given by a fixed set of
    (operation, path) pairs: an operation on a path in that set fails. */
module Fs {
  import opened Paths
  import opened Wrappers

  /** os.FileMode */
  type Mode = bv32

  datatype Node = Directory(mode: Mode) | RegularFile(mode: Mode, content: string)

  /** The error kinds the source distinguishes or passes on: ENOENT (os.IsNotExist),
      ENOTDIR, EISDIR, EEXIST, ENOTEMPTY, EINVAL, and an injected failure. */
  datatype FsError = NotExist | NotDir | IsDir | Exist | NotEmpty | Invalid | Denied

  datatype FsResult<T> = Ok(value: T) | Err(error: FsError)

  datatype Op = ReadOp | MkdirOp | RemoveOp | WriteOp | ChmodOp | CreateOp

  type Nodes = map<Path, Node>
  type Faults = set<(Op, Path)>

  /** The outcome of an operation that changes the filesystem: an error, if
      any, and the nodes afterwards. */
  datatype Outcome = Outcome(err: Option<FsError>, nodes: Nodes)

  // ---------------------------------------------------------------------------
  // Observations

  predicate Exists(nodes: Nodes, p: Path) {
    p.segs == [] || p in nodes
  }

  predicate IsDirAt(nodes: Nodes, p: Path) {
    p.segs == [] || (p in nodes && nodes[p].Directory?)
  }

  predicate IsFileAt(nodes: Nodes, p: Path) {
    p in nodes && nodes[p].RegularFile?
  }

  /** Some proper ancestor of p is a regular file, so the lookup of p stops with ENOTDIR. */
  predicate BlockedByFile(nodes: Nodes, p: Path) {
    exists k :: 0 < k < |p.segs| && IsFileAt(nodes, Path(p.rooted, p.segs[..k]))
  }

  /** The error a lookup of a path that does not exist reports. */
  function MissingError(nodes: Nodes, p: Path): FsError {
    if BlockedByFile(nodes, p) then NotDir else NotExist
  }

  /** p is a direct child of q. */
  predicate IsChildOf(p: Path, q: Path) {
    |p.segs| == |q.segs| + 1 && Parent(p) == q
  }

  /** The names a directory listing of p returns. */
  function ChildNames(nodes: Nodes, p: Path): set<string> {
    set k | k in nodes && IsChildOf(k, p) :: k.segs[|p.segs|]
  }

  /** Every entry is a cleaned path other than "/" and ".", whose parent is a directory. */
  predicate TreeClosed(nodes: Nodes) {
    forall p :: p in nodes ==> WellFormed(p) && p.segs != [] && IsDirAt(nodes, Parent(p))
  }

  /** A listing of a set of names: each name once, in some order. */
  predicate Enumerates(xs: seq<string>, names: set<string>) {
    && (forall i, j :: 0 <= i < j < |xs| ==> xs[i] != xs[j])
    && (forall x :: x in xs ==> x in names)
    && (forall x :: x in names ==> x in xs)
  }

  // ---------------------------------------------------------------------------
  // The operations on cleaned paths

  /** os.ReadDir, as a set of names. */
  function ReadDirPath(nodes: Nodes, faults: Faults, p: Path): FsResult<set<string>> {
    if (ReadOp, p) in faults then Err(Denied)
    else if !Exists(nodes, p) then Err(MissingError(nodes, p))
    else if !IsDirAt(nodes, p) then Err(NotDir)
    else Ok(ChildNames(nodes, p))
  }

  /** os.ReadFile / afero.ReadFile */
  function ReadFilePath(nodes: Nodes, faults: Faults, p: Path): FsResult<string> {
    if (ReadOp, p) in faults then Err(Denied)
    else if !Exists(nodes, p) then Err(MissingError(nodes, p))
    else if IsDirAt(nodes, p) then Err(IsDir)
    else Ok(nodes[p].content)
  }

  /** os.MkdirAll: nothing to do for a directory, ENOTDIR for a file, otherwise
      create the parent first and then the directory itself. Directories
      created before a failure stay. */
  function MkdirAllPath(nodes: Nodes, faults: Faults, p: Path, mode: Mode): Outcome
    decreases |p.segs|
  {
    if IsDirAt(nodes, p) then Outcome(None, nodes)
    else if p in nodes then Outcome(Some(NotDir), nodes)
    else
      var up := MkdirAllPath(nodes, faults, Parent(p), mode);
      if up.err.Some? then up
      else if (MkdirOp, p) in faults then Outcome(Some(Denied), up.nodes)
      else Outcome(None, up.nodes[p := Directory(mode)])
  }

  /** os.RemoveAll: removes p and everything below it; a path that does not
      exist is no error, unless the lookup stops at a file. */
  function RemoveAllPath(nodes: Nodes, faults: Faults, p: Path): Outcome {
    if (RemoveOp, p) in faults then Outcome(Some(Denied), nodes)
    else if p !in nodes && BlockedByFile(nodes, p) then Outcome(Some(NotDir), nodes)
    else Outcome(None, map k | k in nodes && !Under(k, p) :: nodes[k])
  }

  /** OpenFile with O_WRONLY|O_CREATE|O_TRUNC and the given mode, then writing
      content: an existing file keeps its mode and gets the new content, a new
      file needs an existing parent directory. */
  function WritePath(nodes: Nodes, faults: Faults, p: Path, mode: Mode, content: string): Outcome {
    if (WriteOp, p) in faults then Outcome(Some(Denied), nodes)
    else if IsDirAt(nodes, p) then Outcome(Some(IsDir), nodes)
    else if p in nodes then Outcome(None, nodes[p := RegularFile(nodes[p].mode, content)])
    else if !IsDirAt(nodes, Parent(p)) then Outcome(Some(MissingError(nodes, p)), nodes)
    else Outcome(None, nodes[p := RegularFile(mode, content)])
  }

  /** os.Chmod; the modes of "/" and "." are not recorded. */
  function ChmodPath(nodes: Nodes, faults: Faults, p: Path, mode: Mode): Outcome {
    if (ChmodOp, p) in faults then Outcome(Some(Denied), nodes)
    else if p.segs == [] then Outcome(None, nodes)
    else if p !in nodes then Outcome(Some(MissingError(nodes, p)), nodes)
    else if nodes[p].Directory? then Outcome(None, nodes[p := Directory(mode)])
    else Outcome(None, nodes[p := RegularFile(mode, nodes[p].content)])
  }

  /** os.Remove: a file or an empty directory. */
  function RemovePath(nodes: Nodes, faults: Faults, p: Path): Outcome {
    if (RemoveOp, p) in faults then Outcome(Some(Denied), nodes)
    else if p.segs == [] then Outcome(Some(Invalid), nodes)
    else if p !in nodes then Outcome(Some(MissingError(nodes, p)), nodes)
    else if nodes[p].Directory? && ChildNames(nodes, p) != {} then Outcome(Some(NotEmpty), nodes)
    else Outcome(None, map k | k in nodes && k != p :: nodes[k])
  }

  /** OpenFile with O_RDWR|O_CREATE|O_EXCL and mode 0600, as afero.TempFile does. */
  function CreatePath(nodes: Nodes, faults: Faults, p: Path): Outcome {
    if (CreateOp, p) in faults then Outcome(Some(Denied), nodes)
    else if Exists(nodes, p) then Outcome(Some(Exist), nodes)
    else if !IsDirAt(nodes, Parent(p)) then Outcome(Some(MissingError(nodes, p)), nodes)
    else Outcome(None, nodes[p := RegularFile(TempFileMode, "")])
  }

  /** 0600 */
  const TempFileMode: Mode := 0x180

  /** os.RemoveAll refuses a path whose last element is ".". */
  predicate EndsWithDot(s: string) {
    |s| > 0 && s[|s| - 1] == '.' && (|s| == 1 || s[|s| - 2] == '/')
  }

  // ---------------------------------------------------------------------------
  // The operations on the path strings the source passes: they act on the
  // cleaned path, and the empty string names no file (ENOENT). ".." is thus
  // resolved lexically: for "x/../y" with x missing, os.MkdirAll would also
  // create x, which MkdirAllAt does not

  function ReadFileAt(nodes: Nodes, faults: Faults, name: string): FsResult<string> {
    if name == "" then Err(NotExist) else ReadFilePath(nodes, faults, Clean(name))
  }

  function MkdirAllAt(nodes: Nodes, faults: Faults, name: string, mode: Mode): Outcome {
    if name == "" then Outcome(Some(NotExist), nodes) else MkdirAllPath(nodes, faults, Clean(name), mode)
  }

  /** os.RemoveAll ignores the empty string and refuses a name ending in ".". */
  function RemoveAllAt(nodes: Nodes, faults: Faults, name: string): Outcome {
    if name == "" then Outcome(None, nodes)
    else if EndsWithDot(name) then Outcome(Some(Invalid), nodes)
    else RemoveAllPath(nodes, faults, Clean(name))
  }

  function WriteAt(nodes: Nodes, faults: Faults, name: string, mode: Mode, content: string): Outcome {
    if name == "" then Outcome(Some(NotExist), nodes) else WritePath(nodes, faults, Clean(name), mode, content)
  }

  function ChmodAt(nodes: Nodes, faults: Faults, name: string, mode: Mode): Outcome {
    if name == "" then Outcome(Some(NotExist), nodes) else ChmodPath(nodes, faults, Clean(name), mode)
  }

  function RemoveAt(nodes: Nodes, faults: Faults, name: string): Outcome {
    if name == "" then Outcome(Some(NotExist), nodes) else RemovePath(nodes, faults, Clean(name))
  }

  function CreateAt(nodes: Nodes, faults: Faults, name: string): Outcome {
    if name == "" then Outcome(Some(NotExist), nodes) else CreatePath(nodes, faults, Clean(name))
  }

  // ---------------------------------------------------------------------------
  // Lemmas about the operations

  /** A listing is empty exactly when the set it enumerates is. */
  lemma EnumeratesEmpty(xs: seq<string>, names: set<string>)
    requires Enumerates(xs, names)
    ensures |xs| == 0 <==> names == {}
  {
    if |xs| != 0 {
      assert xs[0] in names;
    }
    if names != {} {
      var x :| x in names;
      assert x in xs;
    }
  }

  /** A rendered path whose last element is a proper name does not end in ".". */
  lemma ChildNotEndsWithDot(p: Path, x: string)
    requires x != "" && x != "." && NoSep(x)
    ensures !EndsWithDot(Render(Child(p, x)))
  {
    RenderChildTail(p, x);
    var s := Render(Child(p, x));
    assert s[|s| - 1] == x[|x| - 1];
    if |x| >= 2 {
      assert s[|s| - 2] == x[|x| - 2];
    } else {
      assert x == [x[0]];
    }
  }

  lemma ChildNamesSpec(nodes: Nodes, p: Path, n: string)
    ensures n in ChildNames(nodes, p) <==> Child(p, n) in nodes
  {
    if Child(p, n) in nodes {
      assert IsChildOf(Child(p, n), p);
      assert Child(p, n).segs[|p.segs|] == n;
    }
    if n in ChildNames(nodes, p) {
      var k :| k in nodes && IsChildOf(k, p) && k.segs[|p.segs|] == n;
      assert k.segs == p.segs + [n];
    }
  }

  /** MkdirAll never changes or removes an existing entry; what it adds are
      directories with the requested mode on the way down to p; on success p
      is a directory. */
  lemma {:induction false} MkdirAllFrame(nodes: Nodes, faults: Faults, p: Path, mode: Mode)
    ensures var o := MkdirAllPath(nodes, faults, p, mode);
      && (forall k :: k in nodes ==> k in o.nodes && o.nodes[k] == nodes[k])
      && (forall k :: k in o.nodes && k !in nodes ==> Under(p, k) && k.segs != [] && o.nodes[k] == Directory(mode))
      && (o.err.None? ==> IsDirAt(o.nodes, p))
      && (o.err.None? <==> !BlockedOnTheWay(nodes, faults, p))
    decreases |p.segs|
  {
    if IsDirAt(nodes, p) || p in nodes {
    } else {
      var up := MkdirAllPath(nodes, faults, Parent(p), mode);
      MkdirAllFrame(nodes, faults, Parent(p), mode);
      forall k | k in up.nodes && k !in nodes
        ensures Under(p, k)
      {
        assert Under(Parent(p), k);
      }
    }
  }

  /** When MkdirAll fails: some missing directory on the way to p is in the
      fault set, or the walk meets a file. */
  predicate BlockedOnTheWay(nodes: Nodes, faults: Faults, p: Path)
    decreases |p.segs|
  {
    if IsDirAt(nodes, p) then false
    else if p in nodes then true
    else BlockedOnTheWay(nodes, faults, Parent(p)) || (MkdirOp, p) in faults
  }

  lemma {:induction false} MkdirAllKeepsTree(nodes: Nodes, faults: Faults, p: Path, mode: Mode)
    requires TreeClosed(nodes) && WellFormed(p)
    ensures TreeClosed(MkdirAllPath(nodes, faults, p, mode).nodes)
    decreases |p.segs|
  {
    if IsDirAt(nodes, p) || p in nodes {
    } else {
      var up := MkdirAllPath(nodes, faults, Parent(p), mode);
      assert WellFormed(Parent(p));
      MkdirAllKeepsTree(nodes, faults, Parent(p), mode);
      MkdirAllFrame(nodes, faults, Parent(p), mode);
      if up.err.None? && (MkdirOp, p) !in faults {
        var n := up.nodes[p := Directory(mode)];
        forall k | k in n
          ensures WellFormed(k) && k.segs != [] && IsDirAt(n, Parent(k))
        {
          if k != p {
            assert IsDirAt(up.nodes, Parent(k));
          }
        }
      }
    }
  }

  lemma UnderParent(k: Path, p: Path)
    requires k.segs != [] && Under(Parent(k), p)
    ensures Under(k, p)
  {
    assert k.segs[..|p.segs|] == Parent(k).segs[..|p.segs|];
  }

  lemma RemoveAllKeepsTree(nodes: Nodes, faults: Faults, p: Path)
    requires TreeClosed(nodes)
    ensures TreeClosed(RemoveAllPath(nodes, faults, p).nodes)
  {
    var n := RemoveAllPath(nodes, faults, p).nodes;
    forall k | k in n
      ensures WellFormed(k) && k.segs != [] && IsDirAt(n, Parent(k))
    {
      if n != nodes && Parent(k).segs != [] {
        if Under(Parent(k), p) {
          UnderParent(k, p);
        }
      }
    }
  }

  lemma WriteKeepsTree(nodes: Nodes, faults: Faults, p: Path, mode: Mode, content: string)
    requires TreeClosed(nodes) && WellFormed(p)
    ensures TreeClosed(WritePath(nodes, faults, p, mode, content).nodes)
  {
    var o := WritePath(nodes, faults, p, mode, content);
    if o.err.None? {
      assert !IsDirAt(nodes, p);
      forall k | k in o.nodes
        ensures WellFormed(k) && k.segs != [] && IsDirAt(o.nodes, Parent(k))
      {
        if k == p && p !in nodes {
          assert IsDirAt(nodes, Parent(p));
        } else {
          assert k in nodes;
        }
      }
    }
  }

  lemma ChmodKeepsTree(nodes: Nodes, faults: Faults, p: Path, mode: Mode)
    requires TreeClosed(nodes)
    ensures TreeClosed(ChmodPath(nodes, faults, p, mode).nodes)
  {
  }

  /** Every entry is listed in its parent's directory listing. */
  lemma ChildListed(nodes: Nodes, k: Path)
    requires k in nodes && k.segs != []
    ensures k.segs[|k.segs| - 1] in ChildNames(nodes, Parent(k))
  {
    assert IsChildOf(k, Parent(k));
  }

  /** An entry that os.Remove may delete is no entry's parent. */
  lemma RemovableIsNoParent(nodes: Nodes, p: Path, k: Path)
    requires IsDirAt(nodes, Parent(k)) && k in nodes && k.segs != [] && p.segs != []
    requires p in nodes && !(nodes[p].Directory? && ChildNames(nodes, p) != {})
    ensures Parent(k) != p
  {
    ChildListed(nodes, k);
  }

  lemma RemoveKeepsTree(nodes: Nodes, faults: Faults, p: Path)
    requires TreeClosed(nodes)
    ensures TreeClosed(RemovePath(nodes, faults, p).nodes)
  {
    var o := RemovePath(nodes, faults, p);
    if o.err.None? {
      var n := map k | k in nodes && k != p :: nodes[k];
      assert o.nodes == n;
      forall k | k in n
        ensures WellFormed(k) && k.segs != [] && IsDirAt(n, Parent(k))
      {
        RemovableIsNoParent(nodes, p, k);
      }
    }
  }

  lemma CreateKeepsTree(nodes: Nodes, faults: Faults, p: Path)
    requires TreeClosed(nodes) && WellFormed(p)
    ensures TreeClosed(CreatePath(nodes, faults, p).nodes)
  {
  }

  // ---------------------------------------------------------------------------
  // The filesystem object

  /** A filesystem handle. Operations take the path strings the source passes. */
  class FileSystem {
    var nodes: Nodes
    const faults: Faults

    ghost predicate Valid()
      reads this
    {
      TreeClosed(nodes)
    }

    constructor (initial: Nodes, failing: Faults)
      requires TreeClosed(initial)
      ensures Valid() && nodes == initial && faults == failing
    {
      nodes := initial;
      faults := failing;
    }

    /** os.ReadDir; the names come in some order, each once. */
    method ReadDir(name: string) returns (r: FsResult<seq<string>>)
      requires Valid()
      ensures name == "" ==> r == Err(NotExist)
      ensures name != "" ==> match ReadDirPath(nodes, faults, Clean(name))
        case Err(e) => r == Err(e)
        case Ok(names) => r.Ok? && Enumerates(r.value, names)
    {
      if name == "" {
        return Err(NotExist);
      }
      var listing := ReadDirPath(nodes, faults, Clean(name));
      if listing.Err? {
        return Err(listing.error);
      }
      var rest, out := listing.value, [];
      while rest != {}
        invariant rest <= listing.value
        invariant forall i, j :: 0 <= i < j < |out| ==> out[i] != out[j]
        invariant forall x :: x in out ==> x in listing.value && x !in rest
        invariant forall x :: x in listing.value ==> x in out || x in rest
        decreases |rest|
      {
        var x :| x in rest;
        out, rest := out + [x], rest - {x};
      }
      return Ok(out);
    }

    method ReadFile(name: string) returns (r: FsResult<string>)
      requires Valid()
      ensures r == ReadFileAt(nodes, faults, name)
    {
      if name == "" {
        return Err(NotExist);
      }
      return ReadFilePath(nodes, faults, Clean(name));
    }

    method MkdirAll(name: string, mode: Mode) returns (err: Option<FsError>)
      requires Valid()
      modifies this
      ensures Valid()
      ensures Outcome(err, nodes) == MkdirAllAt(old(nodes), faults, name, mode)
    {
      if name == "" {
        return Some(NotExist);
      }
      MkdirAllKeepsTree(nodes, faults, Clean(name), mode);
      var o := MkdirAllPath(nodes, faults, Clean(name), mode);
      err, nodes := o.err, o.nodes;
    }

    method RemoveAll(name: string) returns (err: Option<FsError>)
      requires Valid()
      modifies this
      ensures Valid()
      ensures Outcome(err, nodes) == RemoveAllAt(old(nodes), faults, name)
    {
      if name == "" {
        return None;
      }
      if EndsWithDot(name) {
        return Some(Invalid);
      }
      RemoveAllKeepsTree(nodes, faults, Clean(name));
      var o := RemoveAllPath(nodes, faults, Clean(name));
      err, nodes := o.err, o.nodes;
    }

    /** OpenFile(name, O_WRONLY|O_CREATE|O_TRUNC, mode) followed by writing content. */
    method WriteFile(name: string, mode: Mode, content: string) returns (err: Option<FsError>)
      requires Valid()
      modifies this
      ensures Valid()
      ensures Outcome(err, nodes) == WriteAt(old(nodes), faults, name, mode, content)
    {
      if name == "" {
        return Some(NotExist);
      }
      WriteKeepsTree(nodes, faults, Clean(name), mode, content);
      var o := WritePath(nodes, faults, Clean(name), mode, content);
      err, nodes := o.err, o.nodes;
    }

    method Chmod(name: string, mode: Mode) returns (err: Option<FsError>)
      requires Valid()
      modifies this
      ensures Valid()
      ensures Outcome(err, nodes) == ChmodAt(old(nodes), faults, name, mode)
    {
      if name == "" {
        return Some(NotExist);
      }
      ChmodKeepsTree(nodes, faults, Clean(name), mode);
      var o := ChmodPath(nodes, faults, Clean(name), mode);
      err, nodes := o.err, o.nodes;
    }

    method Remove(name: string) returns (err: Option<FsError>)
      requires Valid()
      modifies this
      ensures Valid()
      ensures Outcome(err, nodes) == RemoveAt(old(nodes), faults, name)
    {
      if name == "" {
        return Some(NotExist);
      }
      RemoveKeepsTree(nodes, faults, Clean(name));
      var o := RemovePath(nodes, faults, Clean(name));
      err, nodes := o.err, o.nodes;
    }

    /** Creates a new, empty file with mode 0600; fails if the name exists. */
    method CreateExclusive(name: string) returns (err: Option<FsError>)
      requires Valid()
      modifies this
      ensures Valid()
      ensures Outcome(err, nodes) == CreateAt(old(nodes), faults, name)
    {
      if name == "" {
        return Some(NotExist);
      }
      CreateKeepsTree(nodes, faults, Clean(name));
      var o := CreatePath(nodes, faults, Clean(name));
      err, nodes := o.err, o.nodes;
    }
  }
}
