/** The code-module provisioner's archive extractor and installer script
    runner: unzip writes the entries of an agent archive below a target
    directory, refusing entries that would land outside it; installAgent
    downloads an installer into a temporary file, makes it executable, runs
    it and removes the file again. */
module Provisioner {
  import opened Paths
  import opened Wrappers
  import opened Fs

  // ---------------------------------------------------------------------------
  // Archive entries and their modes

  /** A zip entry: its name, the mode its header yields (zip.File.Mode), its
      uncompressed content, and whether zip.File.Open succeeds for it. */
  datatype ZipEntry = ZipEntry(name: string, mode: Mode, content: string, opens: bool)

  /** fs.ModeDir */
  const ModeDir: Mode := 0x8000_0000

  /** 020 */
  const GroupWrite: Mode := 0x10

  /** 0755, the mode of the target directory */
  const TargetDirMode: Mode := 0x1ED

  const AgentConfPath := "agent/conf/"

  predicate IsDirEntry(e: ZipEntry) {
    e.mode & ModeDir != 0
  }

  /** Entries strictly below agent/conf/ */
  predicate InAgentConf(name: string) {
    name != AgentConfPath && HasPrefix(name, AgentConfPath)
  }

  /** The mode an entry is written with: below agent/conf/ the group-write bit
      is set, elsewhere it is the archive's mode. */
  function EntryMode(e: ZipEntry): (r: Mode)
    ensures InAgentConf(e.name) ==> r & GroupWrite == GroupWrite
    ensures !InAgentConf(e.name) ==> r == e.mode
  {
    if InAgentConf(e.name) then e.mode | GroupWrite else e.mode
  }

  /** The mode computation only ever sets the group-write bit, and sets it exactly below agent/conf/. */
  lemma EntryModeBits(e: ZipEntry)
    ensures EntryMode(e) & !GroupWrite == e.mode & !GroupWrite
    ensures InAgentConf(e.name) ==> EntryMode(e) & GroupWrite == GroupWrite
    ensures !InAgentConf(e.name) ==> EntryMode(e) == e.mode
    ensures IsDirEntry(e) <==> EntryMode(e) & ModeDir != 0
  {
  }

  // ---------------------------------------------------------------------------
  // One entry

  datatype UnzipError = OpenFailed | IllegalPath(path: string) | FsFailed(error: FsError)

  datatype Extracted = Extracted(err: Option<UnzipError>, nodes: Nodes)

  function EntryPath(outDir: string, e: ZipEntry): string {
    Join([outDir, e.name])
  }

  /** The zip-slip check: the path must start with the cleaned target followed by a separator. */
  predicate PathAccepted(outDir: string, path: string) {
    HasPrefix(path, CleanString(outDir) + "/")
  }

  /** A cleaned path the zip-slip check accepts lies strictly inside the cleaned target. */
  lemma PathAcceptedSound(outDir: string, path: string)
    ensures PathAccepted(outDir, path) && path == Render(Clean(path)) ==> StrictlyInside(Clean(path), Clean(outDir))
  {
    if PathAccepted(outDir, path) && path == Render(Clean(path)) {
      PrefixCheckSound(Clean(path), Clean(outDir));
    }
  }

  function Lift(o: Outcome): Extracted {
    if o.err.Some? then Extracted(Some(FsFailed(o.err.value)), o.nodes) else Extracted(None, o.nodes)
  }

  /** The extract closure of unzip. */
  function ExtractSpec(nodes: Nodes, faults: Faults, outDir: string, e: ZipEntry): Extracted {
    if !e.opens then Extracted(Some(OpenFailed), nodes)
    else
      var path := EntryPath(outDir, e);
      if !PathAccepted(outDir, path) then Extracted(Some(IllegalPath(path)), nodes)
      else if IsDirEntry(e) then Lift(MkdirAllAt(nodes, faults, path, EntryMode(e)))
      else
        var up := MkdirAllAt(nodes, faults, Dir(path), EntryMode(e));
        if up.err.Some? then Lift(up)
        else Lift(WriteAt(up.nodes, faults, path, EntryMode(e), e.content))
  }

  /** The loop over the entries, in archive order, stopping at the first error. */
  function UnzipLoop(nodes: Nodes, faults: Faults, outDir: string, entries: seq<ZipEntry>): Extracted
    decreases |entries|
  {
    if entries == [] then Extracted(None, nodes)
    else
      var x := ExtractSpec(nodes, faults, outDir, entries[0]);
      if x.err.Some? then x else UnzipLoop(x.nodes, faults, outDir, entries[1..])
  }

  /** unzip: create the target directory, ignoring any error, then extract. */
  function UnzipSpec(nodes: Nodes, faults: Faults, outDir: string, entries: seq<ZipEntry>): Extracted {
    UnzipLoop(MkdirAllAt(nodes, faults, outDir, TargetDirMode).nodes, faults, outDir, entries)
  }

  // ---------------------------------------------------------------------------
  // The zip-slip check

  /** The check accepts an entry exactly when its joined path lies strictly
      inside the cleaned target; when the target cleans to "/" or "." it
      accepts nothing. */
  lemma {:induction false} ZipSlipCheck(outDir: string, e: ZipEntry)
    ensures var path := EntryPath(outDir, e);
      && (PathAccepted(outDir, path) ==> path != "" && path == Render(Clean(path)) && StrictlyInside(Clean(path), Clean(outDir)))
      && (Clean(outDir).segs != [] && StrictlyInside(Clean(path), Clean(outDir)) ==> PathAccepted(outDir, path))
      && (Clean(outDir).segs == [] ==> !PathAccepted(outDir, path))
  {
    var path := EntryPath(outDir, e);
    var o := Clean(outDir);
    JoinEmpty([outDir, e.name]);
    if path != "" {
      assert path == Render(Clean(path));
      if PathAccepted(outDir, path) {
        PrefixCheckSound(Clean(path), o);
      }
      if o.segs != [] && StrictlyInside(Clean(path), o) {
        PrefixCheckComplete(Clean(path), o);
      }
      if o.segs == [] {
        PrefixCheckRejectsAtTop(Clean(path), o);
      }
    } else {
      RenderFirst(o);
    }
  }

  // ---------------------------------------------------------------------------
  // Where the extractor writes

  /** Between two states nothing was removed, and every entry that is new or
      different lies strictly inside o or is a new directory on the way to o. */
  ghost predicate Confined(before: Nodes, after: Nodes, o: Path) {
    && (forall k :: k in before ==> k in after)
    && (forall k :: k in after && (k !in before || after[k] != before[k]) ==>
          StrictlyInside(k, o) || (k !in before && Under(o, k) && after[k].Directory?))
  }

  /** Between two states nothing was removed, and every entry that is new or different lies strictly inside o. */
  ghost predicate StrictlyConfined(before: Nodes, after: Nodes, o: Path) {
    && (forall k :: k in before ==> k in after)
    && (forall k :: k in after && (k !in before || after[k] != before[k]) ==> StrictlyInside(k, o))
  }

  lemma ConfinedTrans(a: Nodes, b: Nodes, c: Nodes, o: Path)
    requires Confined(a, b, o) && Confined(b, c, o)
    ensures Confined(a, c, o)
  {
    forall k | k in c && (k !in a || c[k] != a[k])
      ensures StrictlyInside(k, o) || (k !in a && Under(o, k) && c[k].Directory?)
    {
      if k in b && c[k] == b[k] {
      } else {
      }
    }
  }

  lemma StrictlyConfinedTrans(a: Nodes, b: Nodes, c: Nodes, o: Path)
    requires StrictlyConfined(a, b, o) && StrictlyConfined(b, c, o)
    ensures StrictlyConfined(a, c, o)
  {
    forall k | k in c && (k !in a || c[k] != a[k])
      ensures StrictlyInside(k, o)
    {
      if k in b && c[k] == b[k] {
      } else {
      }
    }
  }

  /** An ancestor-or-self of a path strictly inside o is strictly inside o or an ancestor-or-self of o. */
  lemma AncestorOfInside(p: Path, k: Path, o: Path)
    requires Under(p, k) && StrictlyInside(p, o)
    ensures StrictlyInside(k, o) || Under(o, k)
  {
    if |k.segs| > |o.segs| {
      assert k.segs[..|o.segs|] == p.segs[..|o.segs|];
    } else {
      assert o.segs[..|k.segs|] == p.segs[..|k.segs|];
    }
  }

  /** In a closed tree every ancestor of an existing directory exists. */
  lemma {:induction false} AncestorsExist(nodes: Nodes, o: Path, k: Path)
    requires TreeClosed(nodes) && IsDirAt(nodes, o) && Under(o, k)
    ensures Exists(nodes, k)
    decreases |o.segs|
  {
    if |k.segs| < |o.segs| {
      assert Under(Parent(o), k) by {
        assert Parent(o).segs[..|k.segs|] == o.segs[..|k.segs|];
      }
      AncestorsExist(nodes, Parent(o), k);
    } else {
      assert k.segs == o.segs;
    }
  }

  /** MkdirAll of a path strictly inside o only adds directories, strictly inside o or on the way to o. */
  lemma MkdirInsideConfined(nodes: Nodes, faults: Faults, p: Path, o: Path, mode: Mode)
    requires StrictlyInside(p, o)
    ensures var r := MkdirAllPath(nodes, faults, p, mode);
      && Confined(nodes, r.nodes, o)
      && (TreeClosed(nodes) && IsDirAt(nodes, o) ==> StrictlyConfined(nodes, r.nodes, o))
  {
    var r := MkdirAllPath(nodes, faults, p, mode);
    MkdirAllFrame(nodes, faults, p, mode);
    forall k | k in r.nodes && k !in nodes
      ensures StrictlyInside(k, o) || (Under(o, k) && r.nodes[k].Directory?)
      ensures TreeClosed(nodes) && IsDirAt(nodes, o) ==> StrictlyInside(k, o)
    {
      AncestorOfInside(p, k, o);
      if TreeClosed(nodes) && IsDirAt(nodes, o) && Under(o, k) {
        AncestorsExist(nodes, o, k);
      }
    }
  }

  /** What an accepted entry does, on the cleaned path p it names. */
  function Place(nodes: Nodes, faults: Faults, p: Path, dirEntry: bool, mode: Mode, content: string): Outcome {
    if dirEntry then MkdirAllPath(nodes, faults, p, mode)
    else
      var up := MkdirAllPath(nodes, faults, Parent(p), mode);
      if up.err.Some? then up else WritePath(up.nodes, faults, p, mode, content)
  }

  /** An accepted entry is placed at a cleaned path strictly inside the cleaned target. */
  lemma ExtractPlaces(nodes: Nodes, faults: Faults, outDir: string, e: ZipEntry)
    requires e.opens && PathAccepted(outDir, EntryPath(outDir, e))
    ensures StrictlyInside(Clean(EntryPath(outDir, e)), Clean(outDir))
    ensures ExtractSpec(nodes, faults, outDir, e) ==
      Lift(Place(nodes, faults, Clean(EntryPath(outDir, e)), IsDirEntry(e), EntryMode(e), e.content))
  {
    var path := EntryPath(outDir, e);
    var p := Clean(path);
    assert path == Render(p) && StrictlyInside(p, Clean(outDir)) by {
      ZipSlipCheck(outDir, e);
    }
    assert Clean(Dir(path)) == Parent(p) by {
      DirRender(p);
    }
    assert Dir(path) != "" by {
      RenderFirst(Clean(path[..LastSep(path) + 1]));
    }
  }

  lemma PlaceKeepsTree(nodes: Nodes, faults: Faults, p: Path, dirEntry: bool, mode: Mode, content: string)
    requires TreeClosed(nodes) && WellFormed(p)
    ensures TreeClosed(Place(nodes, faults, p, dirEntry, mode, content).nodes)
  {
    if dirEntry {
      MkdirAllKeepsTree(nodes, faults, p, mode);
    } else {
      assert WellFormed(Parent(p));
      MkdirAllKeepsTree(nodes, faults, Parent(p), mode);
      var up := MkdirAllPath(nodes, faults, Parent(p), mode);
      WriteKeepsTree(up.nodes, faults, p, mode, content);
    }
  }

  /** One entry keeps the tree closed. */
  lemma ExtractKeepsTree(nodes: Nodes, faults: Faults, outDir: string, e: ZipEntry)
    requires TreeClosed(nodes)
    ensures TreeClosed(ExtractSpec(nodes, faults, outDir, e).nodes)
  {
    if e.opens && PathAccepted(outDir, EntryPath(outDir, e)) {
      ExtractPlaces(nodes, faults, outDir, e);
      PlaceKeepsTree(nodes, faults, Clean(EntryPath(outDir, e)), IsDirEntry(e), EntryMode(e), e.content);
    }
  }

  /** Writing a file strictly inside o changes only that file. */
  lemma WriteConfined(nodes: Nodes, faults: Faults, p: Path, o: Path, mode: Mode, content: string)
    requires StrictlyInside(p, o)
    ensures StrictlyConfined(nodes, WritePath(nodes, faults, p, mode, content).nodes, o)
  {
  }

  /** Creating the parent of a path strictly inside o. */
  lemma MkdirParentConfined(nodes: Nodes, faults: Faults, p: Path, o: Path, mode: Mode)
    requires StrictlyInside(p, o)
    ensures var up := MkdirAllPath(nodes, faults, Parent(p), mode);
      && Confined(nodes, up.nodes, o)
      && (TreeClosed(nodes) && IsDirAt(nodes, o) ==> StrictlyConfined(nodes, up.nodes, o))
  {
    if Parent(p) == o {
      MkdirAllFrame(nodes, faults, o, mode);
    } else {
      assert StrictlyInside(Parent(p), o);
      MkdirInsideConfined(nodes, faults, Parent(p), o, mode);
    }
  }

  lemma PlaceConfined(nodes: Nodes, faults: Faults, p: Path, o: Path, dirEntry: bool, mode: Mode, content: string)
    requires StrictlyInside(p, o)
    ensures var r := Place(nodes, faults, p, dirEntry, mode, content);
      && Confined(nodes, r.nodes, o)
      && (TreeClosed(nodes) && IsDirAt(nodes, o) ==> StrictlyConfined(nodes, r.nodes, o))
  {
    if dirEntry {
      MkdirInsideConfined(nodes, faults, p, o, mode);
    } else {
      var up := MkdirAllPath(nodes, faults, Parent(p), mode);
      MkdirParentConfined(nodes, faults, p, o, mode);
      if up.err.None? {
        var w := WritePath(up.nodes, faults, p, mode, content);
        WriteConfined(up.nodes, faults, p, o, mode, content);
        ConfinedTrans(nodes, up.nodes, w.nodes, o);
        if TreeClosed(nodes) && IsDirAt(nodes, o) {
          StrictlyConfinedTrans(nodes, up.nodes, w.nodes, o);
        }
      }
    }
  }

  /** One entry: a rejected or unopenable entry changes nothing; an accepted
      one changes only what lies strictly inside the cleaned target, apart from
      directories created on the way to the target itself, and none of those
      when the target already is a directory. */
  lemma ExtractConfined(nodes: Nodes, faults: Faults, outDir: string, e: ZipEntry)
    ensures var x := ExtractSpec(nodes, faults, outDir, e);
      && Confined(nodes, x.nodes, Clean(outDir))
      && (TreeClosed(nodes) && IsDirAt(nodes, Clean(outDir)) ==> StrictlyConfined(nodes, x.nodes, Clean(outDir)))
      && (!e.opens ==> x == Extracted(Some(OpenFailed), nodes))
      && (e.opens && !PathAccepted(outDir, EntryPath(outDir, e)) ==>
            x == Extracted(Some(IllegalPath(EntryPath(outDir, e))), nodes))
  {
    if e.opens && PathAccepted(outDir, EntryPath(outDir, e)) {
      ExtractPlaces(nodes, faults, outDir, e);
      PlaceConfined(nodes, faults, Clean(EntryPath(outDir, e)), Clean(outDir), IsDirEntry(e), EntryMode(e), e.content);
    }
  }

  lemma PlaceResult(nodes: Nodes, faults: Faults, p: Path, dirEntry: bool, mode: Mode, content: string)
    requires p.segs != []
    ensures var r := Place(nodes, faults, p, dirEntry, mode, content);
      && (dirEntry ==>
            && (forall k :: k in nodes ==> k in r.nodes && r.nodes[k] == nodes[k])
            && (forall k :: k in r.nodes && k !in nodes ==> Under(p, k) && r.nodes[k] == Directory(mode)))
      && (!dirEntry ==>
            && (forall k :: k in nodes && k != p ==> k in r.nodes && r.nodes[k] == nodes[k])
            && (forall k :: k in r.nodes && k !in nodes && k != p ==> Under(Parent(p), k) && r.nodes[k] == Directory(mode)))
      && (r.err.None? ==>
        && (dirEntry ==> IsDirAt(r.nodes, p))
        && (!dirEntry ==>
              && IsFileAt(r.nodes, p)
              && r.nodes[p].content == content
              && (p !in nodes ==> r.nodes[p].mode == mode)
              && (p in nodes ==> r.nodes[p] == RegularFile(nodes[p].mode, content))))
  {
    if dirEntry {
      MkdirAllFrame(nodes, faults, p, mode);
    } else {
      var up := MkdirAllPath(nodes, faults, Parent(p), mode);
      assert && (forall k :: k in nodes ==> k in up.nodes && up.nodes[k] == nodes[k])
             && (forall k :: k in up.nodes && k !in nodes ==> Under(Parent(p), k) && up.nodes[k] == Directory(mode))
             && (up.err.None? ==> IsDirAt(up.nodes, Parent(p))) by {
        MkdirAllFrame(nodes, faults, Parent(p), mode);
      }
      if up.err.None? {
        // the file's own path is not on the way to its parent
        assert p in up.nodes ==> p in nodes by {
          assert !Under(Parent(p), p);
        }
        WriteFrame(up.nodes, faults, p, mode, content);
      }
    }
  }

  /** A write changes only its own path, which it leaves a regular file with
      the new content: with the given mode when new, its old mode otherwise. */
  lemma WriteFrame(nodes: Nodes, faults: Faults, p: Path, mode: Mode, content: string)
    ensures var w := WritePath(nodes, faults, p, mode, content);
      && (forall k :: k in nodes && k != p ==> k in w.nodes && w.nodes[k] == nodes[k])
      && (forall k :: k in w.nodes ==> k in nodes || k == p)
      && (w.err.None? ==>
            && IsFileAt(w.nodes, p)
            && w.nodes[p].content == content
            && (p !in nodes ==> w.nodes[p].mode == mode)
            && (p in nodes ==> w.nodes[p] == RegularFile(nodes[p].mode, content)))
  {
  }

  /** A directory entry keeps every existing entry and adds only directories
      with the computed mode, on the way down to its own path; a file entry
      keeps every other existing entry and adds, besides its own file, only such
      directories on the way down to its parent. A directory entry that succeeds
      leaves a directory; a file entry that succeeds leaves a regular file with
      the entry's content, with the computed mode when it is new, and with its
      old mode when it existed. */
  lemma ExtractResult(nodes: Nodes, faults: Faults, outDir: string, e: ZipEntry)
    ensures var x := ExtractSpec(nodes, faults, outDir, e);
      var p := Clean(EntryPath(outDir, e));
      && (IsDirEntry(e) ==>
            && (forall k :: k in nodes ==> k in x.nodes && x.nodes[k] == nodes[k])
            && (forall k :: k in x.nodes && k !in nodes ==> Under(p, k) && x.nodes[k] == Directory(EntryMode(e))))
      && (!IsDirEntry(e) ==>
            && (forall k :: k in nodes && k != p ==> k in x.nodes && x.nodes[k] == nodes[k])
            && (forall k :: k in x.nodes && k !in nodes && k != p ==> Under(Parent(p), k) && x.nodes[k] == Directory(EntryMode(e))))
      && (x.err.None? ==>
        && (IsDirEntry(e) ==> IsDirAt(x.nodes, p))
        && (!IsDirEntry(e) ==>
              && IsFileAt(x.nodes, p)
              && x.nodes[p].content == e.content
              && (p !in nodes ==> x.nodes[p].mode == EntryMode(e))
              && (p in nodes ==> x.nodes[p] == RegularFile(nodes[p].mode, e.content))))
  {
    if e.opens && PathAccepted(outDir, EntryPath(outDir, e)) {
      ExtractPlaces(nodes, faults, outDir, e);
      PlaceResult(nodes, faults, Clean(EntryPath(outDir, e)), IsDirEntry(e), EntryMode(e), e.content);
    }
  }

  // ---------------------------------------------------------------------------
  // The loop

  /** Extracting a + b is extracting a and then, if that succeeded, b from
      where a left off: earlier entries stay extracted when a later one fails,
      and nothing after the failing entry is looked at. */
  lemma {:induction false} UnzipLoopConcat(nodes: Nodes, faults: Faults, outDir: string, a: seq<ZipEntry>, b: seq<ZipEntry>)
    ensures var first := UnzipLoop(nodes, faults, outDir, a);
      UnzipLoop(nodes, faults, outDir, a + b) ==
        if first.err.Some? then first else UnzipLoop(first.nodes, faults, outDir, b)
    decreases |a|
  {
    if a == [] {
      assert a + b == b;
    } else {
      assert (a + b)[0] == a[0] && (a + b)[1..] == a[1..] + b;
      var x := ExtractSpec(nodes, faults, outDir, a[0]);
      if x.err.None? {
        UnzipLoopConcat(x.nodes, faults, outDir, a[1..], b);
      }
    }
  }

  /** When entry i is the first to fail, the result is that failure, on the
      state extraction of the entries before it reached. */
  lemma FirstErrorStops(nodes: Nodes, faults: Faults, outDir: string, entries: seq<ZipEntry>, i: int)
    requires 0 <= i < |entries|
    requires UnzipLoop(nodes, faults, outDir, entries[..i]).err.None?
    requires ExtractSpec(UnzipLoop(nodes, faults, outDir, entries[..i]).nodes, faults, outDir, entries[i]).err.Some?
    ensures UnzipLoop(nodes, faults, outDir, entries) ==
      ExtractSpec(UnzipLoop(nodes, faults, outDir, entries[..i]).nodes, faults, outDir, entries[i])
  {
    assert entries == entries[..i] + entries[i..];
    UnzipLoopConcat(nodes, faults, outDir, entries[..i], entries[i..]);
    assert entries[i..][0] == entries[i];
  }

  lemma {:induction false} UnzipLoopConfined(nodes: Nodes, faults: Faults, outDir: string, entries: seq<ZipEntry>)
    ensures var r := UnzipLoop(nodes, faults, outDir, entries);
      && Confined(nodes, r.nodes, Clean(outDir))
      && (TreeClosed(nodes) && IsDirAt(nodes, Clean(outDir)) ==> StrictlyConfined(nodes, r.nodes, Clean(outDir)))
    decreases |entries|
  {
    if entries != [] {
      var o := Clean(outDir);
      var x := ExtractSpec(nodes, faults, outDir, entries[0]);
      assert Confined(nodes, x.nodes, o)
          && (TreeClosed(nodes) && IsDirAt(nodes, o) ==> StrictlyConfined(nodes, x.nodes, o)) by {
        ExtractConfined(nodes, faults, outDir, entries[0]);
      }
      if x.err.None? {
        var r := UnzipLoop(x.nodes, faults, outDir, entries[1..]);
        assert UnzipLoop(nodes, faults, outDir, entries) == r;
        assert Confined(x.nodes, r.nodes, o)
            && (TreeClosed(x.nodes) && IsDirAt(x.nodes, o) ==> StrictlyConfined(x.nodes, r.nodes, o)) by {
          UnzipLoopConfined(x.nodes, faults, outDir, entries[1..]);
        }
        assert TreeClosed(nodes) ==> TreeClosed(x.nodes) by {
          if TreeClosed(nodes) {
            ExtractKeepsTree(nodes, faults, outDir, entries[0]);
          }
        }
        ChainConfined(nodes, x.nodes, r.nodes, o);
      } else {
        assert UnzipLoop(nodes, faults, outDir, entries) == x;
      }
    }
  }

  /** Two confined changes in a row are one; once the target is a directory
      in a tree, it stays one, so strict confinement chains too. */
  lemma ChainConfined(a: Nodes, b: Nodes, c: Nodes, o: Path)
    requires Confined(a, b, o) && Confined(b, c, o)
    requires TreeClosed(a) ==> TreeClosed(b)
    requires TreeClosed(a) && IsDirAt(a, o) ==> StrictlyConfined(a, b, o)
    requires TreeClosed(b) && IsDirAt(b, o) ==> StrictlyConfined(b, c, o)
    ensures Confined(a, c, o)
    ensures TreeClosed(a) && IsDirAt(a, o) ==> StrictlyConfined(a, c, o)
  {
    ConfinedTrans(a, b, c, o);
    if TreeClosed(a) && IsDirAt(a, o) {
      assert o !in a ==> o.segs == [];
      assert IsDirAt(b, o);
      StrictlyConfinedTrans(a, b, c, o);
    }
  }

  /** unzip removes nothing; every entry it creates or changes lies strictly
      inside the cleaned target or is a directory on the way to it; every
      regular file it creates or changes lies strictly inside the target; and
      when the target directory is in place after the first MkdirAll, the
      entries change only what lies strictly inside it. */
  lemma UnzipConfined(nodes: Nodes, faults: Faults, outDir: string, entries: seq<ZipEntry>)
    requires TreeClosed(nodes)
    ensures var start := MkdirAllAt(nodes, faults, outDir, TargetDirMode);
      var r := UnzipSpec(nodes, faults, outDir, entries);
      && Confined(nodes, r.nodes, Clean(outDir))
      && (forall k :: k in r.nodes && r.nodes[k].RegularFile? && (k !in nodes || r.nodes[k] != nodes[k]) ==>
            StrictlyInside(k, Clean(outDir)))
      && (start.err.None? ==> StrictlyConfined(start.nodes, r.nodes, Clean(outDir)))
  {
    var o := Clean(outDir);
    var start := MkdirAllAt(nodes, faults, outDir, TargetDirMode);
    var r := UnzipSpec(nodes, faults, outDir, entries);
    if outDir != "" {
      MkdirAllFrame(nodes, faults, o, TargetDirMode);
      MkdirAllKeepsTree(nodes, faults, o, TargetDirMode);
      forall k | k in start.nodes && k !in nodes
        ensures Under(o, k) && start.nodes[k].Directory?
      {
      }
      assert Confined(nodes, start.nodes, o);
    } else {
      assert start.nodes == nodes;
    }
    UnzipLoopConfined(start.nodes, faults, outDir, entries);
    ConfinedTrans(nodes, start.nodes, r.nodes, o);
    forall k | k in r.nodes && r.nodes[k].RegularFile? && (k !in nodes || r.nodes[k] != nodes[k])
      ensures StrictlyInside(k, o)
    {
    }
  }

  // ---------------------------------------------------------------------------
  // The extractor on the filesystem object

  method Extract(fs: FileSystem, outDir: string, e: ZipEntry) returns (err: Option<UnzipError>)
    requires fs.Valid()
    modifies fs
    ensures fs.Valid()
    ensures Extracted(err, fs.nodes) == ExtractSpec(old(fs.nodes), fs.faults, outDir, e)
  {
    if !e.opens {
      return Some(OpenFailed);
    }
    var path := EntryPath(outDir, e);
    if !PathAccepted(outDir, path) {
      return Some(IllegalPath(path));
    }
    var mode := e.mode;
    if InAgentConf(e.name) {
      mode := mode | GroupWrite;
    }
    assert mode == EntryMode(e);
    var e1: Option<FsError>;
    if IsDirEntry(e) {
      e1 := fs.MkdirAll(path, mode);
      return if e1.Some? then Some(FsFailed(e1.value)) else None;
    }
    e1 := fs.MkdirAll(Dir(path), mode);
    if e1.Some? {
      return Some(FsFailed(e1.value));
    }
    e1 := fs.WriteFile(path, mode, e.content);
    return if e1.Some? then Some(FsFailed(e1.value)) else None;
  }

  /** unzip */
  method Unzip(fs: FileSystem, outDir: string, entries: seq<ZipEntry>) returns (err: Option<UnzipError>)
    requires fs.Valid()
    modifies fs
    ensures fs.Valid()
    ensures Extracted(err, fs.nodes) == UnzipSpec(old(fs.nodes), fs.faults, outDir, entries)
  {
    var ignored := fs.MkdirAll(outDir, TargetDirMode);
    ghost var start := fs.nodes;
    var i := 0;
    while i < |entries|
      invariant 0 <= i <= |entries|
      invariant fs.Valid()
      invariant UnzipLoop(start, fs.faults, outDir, entries) == UnzipLoop(fs.nodes, fs.faults, outDir, entries[i..])
    {
      assert entries[i..][0] == entries[i] && entries[i..][1..] == entries[i + 1..];
      err := Extract(fs, outDir, entries[i]);
      if err.Some? {
        return;
      }
      i := i + 1;
    }
    return None;
  }

  // ---------------------------------------------------------------------------
  // installAgent

  /** The filesystem and foreign steps installAgent takes, in order. */
  datatype Step = CreateTemp | Download | ChmodTemp | Exec | RemoveTemp

  datatype InstallError = TempFileFailed | DownloadFailed | ChmodFailed | ExecFailed

  datatype Installed = Installed(err: Option<InstallError>, nodes: Nodes, trace: seq<Step>)

  /** 0500 */
  const InstallerMode: Mode := 0x140

  /** The temporary file afero.TempFile creates in dir for the prefix "download". */
  function TempPath(tempDir: string, random: string): string {
    Join([tempDir, "download" + random])
  }

  /** The steps between creating the temporary file and removing it. download
      is what GetLatestAgent delivers (None when it fails); execOk tells
      whether the installer script exits successfully. */
  function InstallBody(nodes: Nodes, faults: Faults, tmp: string, download: Option<string>, execOk: bool): Installed {
    if download.None? then Installed(Some(DownloadFailed), nodes, [Download])
    else
      var w := WriteAt(nodes, faults, tmp, TempFileMode, download.value);
      if w.err.Some? then Installed(Some(DownloadFailed), w.nodes, [Download])
      else
        var ch := ChmodAt(w.nodes, faults, tmp, InstallerMode);
        if ch.err.Some? then Installed(Some(ChmodFailed), ch.nodes, [Download, ChmodTemp])
        else if !execOk then Installed(Some(ExecFailed), ch.nodes, [Download, ChmodTemp, Exec])
        else Installed(None, ch.nodes, [Download, ChmodTemp, Exec])
  }

  /** installAgent: the deferred removal runs on every return after the
      temporary file exists, and its failure is only logged. */
  function InstallSpec(nodes: Nodes, faults: Faults, tmp: string, download: Option<string>, execOk: bool): Installed {
    var c := CreateAt(nodes, faults, tmp);
    if c.err.Some? then Installed(Some(TempFileFailed), c.nodes, [CreateTemp])
    else
      var body := InstallBody(c.nodes, faults, tmp, download, execOk);
      var rm := RemoveAt(body.nodes, faults, tmp);
      Installed(body.err, rm.nodes, [CreateTemp] + body.trace + [RemoveTemp])
  }

  /** Once the temporary file is created, removing it is the last step and
      happens once, whatever fails; before it exists nothing else happens. */
  lemma CleanupOnEveryPath(nodes: Nodes, faults: Faults, tmp: string, download: Option<string>, execOk: bool)
    ensures var r := InstallSpec(nodes, faults, tmp, download, execOk);
      && |r.trace| >= 1 && r.trace[0] == CreateTemp
      && (CreateAt(nodes, faults, tmp).err.Some? <==> r.trace == [CreateTemp])
      && (CreateAt(nodes, faults, tmp).err.Some? ==> r.err == Some(TempFileFailed) && r.nodes == nodes)
      && (CreateAt(nodes, faults, tmp).err.None? ==>
            && r.trace[|r.trace| - 1] == RemoveTemp
            && (forall i :: 0 <= i < |r.trace| - 1 ==> r.trace[i] != RemoveTemp))
  {
    var c := CreateAt(nodes, faults, tmp);
    if c.err.None? {
      BodyTrace(c.nodes, faults, tmp, download, execOk);
    }
  }

  /** The outcome installAgent reports does not depend on whether removing the temporary file fails. */
  lemma RemovalFailureIgnored(nodes: Nodes, f1: Faults, f2: Faults, tmp: string, download: Option<string>, execOk: bool)
    requires forall op, p :: op != RemoveOp ==> ((op, p) in f1 <==> (op, p) in f2)
    ensures InstallSpec(nodes, f1, tmp, download, execOk).err == InstallSpec(nodes, f2, tmp, download, execOk).err
    ensures InstallSpec(nodes, f1, tmp, download, execOk).trace == InstallSpec(nodes, f2, tmp, download, execOk).trace
  {
    if tmp != "" {
      var p := Clean(tmp);
      assert (CreateOp, p) in f1 <==> (CreateOp, p) in f2;
      assert (WriteOp, p) in f1 <==> (WriteOp, p) in f2;
      assert (ChmodOp, p) in f1 <==> (ChmodOp, p) in f2;
    }
    var c := CreateAt(nodes, f1, tmp);
    assert CreateAt(nodes, f2, tmp) == c;
    if c.err.None? {
      BodyFaultsAgree(c.nodes, f1, f2, tmp, download, execOk);
    }
  }

  /** The body does not look at removal faults. */
  lemma BodyFaultsAgree(nodes: Nodes, f1: Faults, f2: Faults, tmp: string, download: Option<string>, execOk: bool)
    requires tmp != "" ==> ((WriteOp, Clean(tmp)) in f1 <==> (WriteOp, Clean(tmp)) in f2)
    requires tmp != "" ==> ((ChmodOp, Clean(tmp)) in f1 <==> (ChmodOp, Clean(tmp)) in f2)
    ensures InstallBody(nodes, f1, tmp, download, execOk) == InstallBody(nodes, f2, tmp, download, execOk)
  {
    if download.Some? {
      var w := WriteAt(nodes, f1, tmp, TempFileMode, download.value);
      assert WriteAt(nodes, f2, tmp, TempFileMode, download.value) == w;
      if w.err.None? {
        assert ChmodAt(w.nodes, f2, tmp, InstallerMode) == ChmodAt(w.nodes, f1, tmp, InstallerMode);
      }
    }
  }

  /** The temporary file on the cleaned-path level: creating it adds an empty
      file with mode 0600 where nothing was; writing, chmod and removal then
      act on that one file. */
  lemma CreateTempFile(nodes: Nodes, faults: Faults, p: Path)
    requires CreatePath(nodes, faults, p).err.None?
    ensures p.segs != [] && p !in nodes
    ensures CreatePath(nodes, faults, p).nodes == nodes[p := RegularFile(TempFileMode, "")]
  {
  }

  lemma WriteOverFile(nodes: Nodes, faults: Faults, p: Path, mode: Mode, content: string)
    requires IsFileAt(nodes, p) && p.segs != []
    ensures WritePath(nodes, faults, p, mode, content) ==
      if (WriteOp, p) in faults then Outcome(Some(Denied), nodes)
      else Outcome(None, nodes[p := RegularFile(nodes[p].mode, content)])
  {
  }

  lemma ChmodFile(nodes: Nodes, faults: Faults, p: Path, mode: Mode)
    requires IsFileAt(nodes, p) && p.segs != []
    ensures ChmodPath(nodes, faults, p, mode) ==
      if (ChmodOp, p) in faults then Outcome(Some(Denied), nodes)
      else Outcome(None, nodes[p := RegularFile(mode, nodes[p].content)])
  {
  }

  lemma RemoveFile(nodes: Nodes, faults: Faults, p: Path)
    requires IsFileAt(nodes, p) && p.segs != []
    ensures RemovePath(nodes, faults, p) ==
      if (RemoveOp, p) in faults then Outcome(Some(Denied), nodes)
      else Outcome(None, map k | k in nodes && k != p :: nodes[k])
  {
  }

  /** After the temporary file is created, the body leaves it a regular file
      and changes nothing else; when the installer runs, the file holds the
      download with mode 0500. */
  lemma {:induction false} BodyOnTempFile(nodes: Nodes, faults: Faults, tmp: string, download: Option<string>, execOk: bool)
    requires CreateAt(nodes, faults, tmp).err.None?
    ensures tmp != "" && Clean(tmp).segs != [] && Clean(tmp) !in nodes
    ensures var body := InstallBody(CreateAt(nodes, faults, tmp).nodes, faults, tmp, download, execOk);
      var p := Clean(tmp);
      && body.nodes.Keys == nodes.Keys + {p}
      && (forall k :: k in nodes ==> body.nodes[k] == nodes[k])
      && IsFileAt(body.nodes, p)
      && (Exec in body.trace ==> download.Some? && body.nodes[p] == RegularFile(InstallerMode, download.value))
  {
    var p := Clean(tmp);
    var c := CreateAt(nodes, faults, tmp);
    CreateTempFile(nodes, faults, p);
    if download.Some? {
      WriteOverFile(c.nodes, faults, p, TempFileMode, download.value);
      var w := WriteAt(c.nodes, faults, tmp, TempFileMode, download.value);
      if w.err.None? {
        ChmodFile(w.nodes, faults, p, InstallerMode);
      }
    }
  }

  /** The three ways the body can end. */
  lemma BodyTrace(nodes: Nodes, faults: Faults, tmp: string, download: Option<string>, execOk: bool)
    ensures var b := InstallBody(nodes, faults, tmp, download, execOk);
      && (b.trace == [Download] || b.trace == [Download, ChmodTemp] || b.trace == [Download, ChmodTemp, Exec])
      && (download.None? ==> b.trace == [Download] && b.err == Some(DownloadFailed))
      && (b.err.None? ==> b.trace == [Download, ChmodTemp, Exec])
  {
    if download.Some? {
      var w := WriteAt(nodes, faults, tmp, TempFileMode, download.value);
      if w.err.None? {
        var ch := ChmodAt(w.nodes, faults, tmp, InstallerMode);
        assert ch.err.None? ==> InstallBody(nodes, faults, tmp, download, execOk).trace == [Download, ChmodTemp, Exec];
      }
    }
  }

  /** A failed download returns before chmod and exec; exec comes only after
      chmod; success means the installer was run. */
  lemma StepOrder(nodes: Nodes, faults: Faults, tmp: string, download: Option<string>, execOk: bool)
    ensures var r := InstallSpec(nodes, faults, tmp, download, execOk);
      && (download.None? && CreateAt(nodes, faults, tmp).err.None? ==>
            r.err == Some(DownloadFailed) && r.trace == [CreateTemp, Download, RemoveTemp])
      && (Exec in r.trace ==> r.trace == [CreateTemp, Download, ChmodTemp, Exec, RemoveTemp])
      && (r.err.None? ==> Exec in r.trace)
  {
    var c := CreateAt(nodes, faults, tmp);
    var r := InstallSpec(nodes, faults, tmp, download, execOk);
    if c.err.None? {
      var body := InstallBody(c.nodes, faults, tmp, download, execOk);
      assert r.trace == [CreateTemp] + body.trace + [RemoveTemp] && r.err == body.err;
      assert && (body.trace == [Download] || body.trace == [Download, ChmodTemp] || body.trace == [Download, ChmodTemp, Exec])
             && (download.None? ==> body.trace == [Download] && body.err == Some(DownloadFailed))
             && (body.err.None? ==> body.trace == [Download, ChmodTemp, Exec]) by {
        BodyTrace(c.nodes, faults, tmp, download, execOk);
      }
      if body.trace == [Download] {
        assert r.trace == [CreateTemp, Download, RemoveTemp];
      } else if body.trace == [Download, ChmodTemp] {
        assert r.trace == [CreateTemp, Download, ChmodTemp, RemoveTemp];
      } else {
        assert r.trace == [CreateTemp, Download, ChmodTemp, Exec, RemoveTemp];
      }
    }
  }

  /** When the installer runs, the temporary file holds the download with mode 0500. */
  lemma InstallerAsRun(nodes: Nodes, faults: Faults, tmp: string, download: Option<string>, execOk: bool)
    ensures var c := CreateAt(nodes, faults, tmp);
      var body := InstallBody(c.nodes, faults, tmp, download, execOk);
      c.err.None? && Exec in body.trace ==>
        tmp != "" && download.Some? && Clean(tmp) in body.nodes && body.nodes[Clean(tmp)] == RegularFile(InstallerMode, download.value)
  {
    var c := CreateAt(nodes, faults, tmp);
    if c.err.None? {
      var body := InstallBody(c.nodes, faults, tmp, download, execOk);
      assert tmp != "" && (Exec in body.trace ==> download.Some? && Clean(tmp) in body.nodes && body.nodes[Clean(tmp)] == RegularFile(InstallerMode, download.value)) by {
        BodyOnTempFile(nodes, faults, tmp, download, execOk);
      }
    }
  }

  /** With a plain file name and no failing removal, installAgent leaves the
      filesystem as it found it. */
  lemma NothingLeftBehind(nodes: Nodes, faults: Faults, tempDir: string, random: string, download: Option<string>, execOk: bool)
    requires IsName("download" + random)
    requires (RemoveOp, Clean(TempPath(tempDir, random))) !in faults
    ensures InstallSpec(nodes, faults, TempPath(tempDir, random), download, execOk).nodes == nodes
  {
    var tmp := TempPath(tempDir, random);
    var c := CreateAt(nodes, faults, tmp);
    if c.err.None? {
      var p := Clean(tmp);
      var body := InstallBody(c.nodes, faults, tmp, download, execOk);
      assert && tmp != "" && p.segs != [] && p !in nodes && IsFileAt(body.nodes, p)
             && body.nodes.Keys == nodes.Keys + {p}
             && (forall k :: k in nodes ==> body.nodes[k] == nodes[k]) by {
        BodyOnTempFile(nodes, faults, tmp, download, execOk);
      }
      assert RemoveAt(body.nodes, faults, tmp).nodes == map k | k in body.nodes && k != p :: body.nodes[k] by {
        RemoveFile(body.nodes, faults, p);
      }
      DropAdded(nodes, body.nodes, p);
    }
  }

  /** Dropping the one key a map gained gives back the map it grew from. */
  lemma DropAdded(before: Nodes, after: Nodes, p: Path)
    requires p !in before && after.Keys == before.Keys + {p}
    requires forall k :: k in before ==> after[k] == before[k]
    ensures (map k | k in after && k != p :: after[k]) == before
  {
  }

  /** installAgent. random is the suffix afero.TempFile picks. The download
      and the installer run are given as their results. */
  method InstallAgent(fs: FileSystem, tempDir: string, random: string, download: Option<string>, execOk: bool)
    returns (err: Option<InstallError>, ghost trace: seq<Step>)
    requires fs.Valid()
    modifies fs
    ensures fs.Valid()
    ensures Installed(err, fs.nodes, trace) == InstallSpec(old(fs.nodes), fs.faults, TempPath(tempDir, random), download, execOk)
  {
    var tmp := TempPath(tempDir, random);
    var e := fs.CreateExclusive(tmp);
    if e.Some? {
      return Some(TempFileFailed), [CreateTemp];
    }
    err, trace := RunInstaller(fs, tmp, download, execOk);
    var removeErr := fs.Remove(tmp);
    trace := [CreateTemp] + trace + [RemoveTemp];
  }

  /** The body of installAgent between creating and removing the temporary file. */
  method RunInstaller(fs: FileSystem, tmp: string, download: Option<string>, execOk: bool)
    returns (err: Option<InstallError>, ghost trace: seq<Step>)
    requires fs.Valid()
    modifies fs
    ensures fs.Valid()
    ensures Installed(err, fs.nodes, trace) == InstallBody(old(fs.nodes), fs.faults, tmp, download, execOk)
  {
    if download.None? {
      return Some(DownloadFailed), [Download];
    }
    var e := fs.WriteFile(tmp, TempFileMode, download.value);
    if e.Some? {
      return Some(DownloadFailed), [Download];
    }
    e := fs.Chmod(tmp, InstallerMode);
    if e.Some? {
      return Some(ChmodFailed), [Download, ChmodTemp];
    }
    if !execOk {
      return Some(ExecFailed), [Download, ChmodTemp, Exec];
    }
    return None, [Download, ChmodTemp, Exec];
  }
}
