/** The bind-config resolver of the CSI driver: for a volume request it finds
    the pod's namespace and the DynaKube that owns it, reads the tenant UUID
    and the agent version from the data directory, and creates the per-pod
    log and data-storage directories. Each failure maps to a gRPC status code. */
module BindConfig {
  import opened Paths
  import opened Wrappers
  import opened Fs

  /** The gRPC status codes the resolver returns. */
  datatype Code = FailedPrecondition | Internal | Unavailable

  datatype Namespace = Namespace(name: string)

  datatype DynaKube = DynaKube(name: string)

  /** The result of reading the namespace from the Kubernetes API. */
  datatype NamespaceLookup = NamespaceFound(ns: Namespace) | NamespaceFailed

  /** The result of codemodules.FindForNamespace: an error, no DynaKube, or one. */
  datatype DynaKubeLookup = LookupFailed | NoDynaKube | Assigned(dk: DynaKube)

  datatype VolumeConfig = VolumeConfig(namespace: string, podUID: string)

  /** bindConfig */
  datatype BindConfig = BindConfig(agentDir: string, envDir: string, version: string)

  /** What newBindConfig returns, with the filesystem afterwards. */
  datatype Bound = Bound(cfg: Option<BindConfig>, err: Option<Code>, nodes: Nodes)

  /** 0777 */
  const PodDirMode: Mode := 0x1FF

  function TenantFile(rootDir: string, dataPath: string, dkName: string): string {
    Join([rootDir, dataPath, "tenant-" + dkName])
  }

  function EnvDirOf(rootDir: string, dataPath: string, tenantUUID: string): string {
    Join([rootDir, dataPath, tenantUUID])
  }

  function PodDirs(envDir: string, podUID: string): seq<string> {
    [Join([envDir, "log", podUID]), Join([envDir, "datastorage", podUID])]
  }

  function VersionFile(envDir: string): string {
    Join([envDir, "version"])
  }

  /** The loop of MkdirAll calls, stopping at the first error. */
  function MkdirEach(nodes: Nodes, faults: Faults, dirs: seq<string>, mode: Mode): Outcome
    decreases |dirs|
  {
    if dirs == [] then Outcome(None, nodes)
    else
      var o := MkdirAllAt(nodes, faults, dirs[0], mode);
      if o.err.Some? then o else MkdirEach(o.nodes, faults, dirs[1..], mode)
  }

  /** newBindConfig, as a function of the filesystem state and the two lookups. */
  function BindSpec(nodes: Nodes, faults: Faults, rootDir: string, dataPath: string, vol: VolumeConfig,
                    namespace: NamespaceLookup, findDynaKube: Namespace -> DynaKubeLookup): Bound
  {
    match namespace
    case NamespaceFailed => Bound(None, Some(FailedPrecondition), nodes)
    case NamespaceFound(ns) =>
      match findDynaKube(ns)
      case LookupFailed => Bound(None, Some(Internal), nodes)
      case NoDynaKube => Bound(None, Some(FailedPrecondition), nodes)
      case Assigned(dk) =>
        match ReadFileAt(nodes, faults, TenantFile(rootDir, dataPath, dk.name))
        case Err(_) => Bound(None, Some(Unavailable), nodes)
        case Ok(uuid) =>
          var envDir := EnvDirOf(rootDir, dataPath, uuid);
          var mk := MkdirEach(nodes, faults, PodDirs(envDir, vol.podUID), PodDirMode);
          if mk.err.Some? then Bound(None, Some(Internal), mk.nodes)
          else
            match ReadFileAt(mk.nodes, faults, VersionFile(envDir))
            case Err(_) => Bound(None, Some(Internal), mk.nodes)
            case Ok(ver) => Bound(Some(BindConfig(Join([envDir, "bin", ver]), envDir, ver)), None, mk.nodes)
  }

  /** The tenant UUID the resolver reads, when it gets that far and the read succeeds. */
  predicate TenantReadable(nodes: Nodes, faults: Faults, rootDir: string, dataPath: string,
                           namespace: NamespaceLookup, findDynaKube: Namespace -> DynaKubeLookup)
  {
    && namespace.NamespaceFound?
    && findDynaKube(namespace.ns).Assigned?
    && ReadFileAt(nodes, faults, TenantFile(rootDir, dataPath, findDynaKube(namespace.ns).dk.name)).Ok?
  }

  function TenantUUID(nodes: Nodes, faults: Faults, rootDir: string, dataPath: string,
                      namespace: NamespaceLookup, findDynaKube: Namespace -> DynaKubeLookup): string
    requires TenantReadable(nodes, faults, rootDir, dataPath, namespace, findDynaKube)
  {
    ReadFileAt(nodes, faults, TenantFile(rootDir, dataPath, findDynaKube(namespace.ns).dk.name)).value
  }

  // ---------------------------------------------------------------------------
  // The directory loop only adds directories

  lemma MkdirAllAtFrame(nodes: Nodes, faults: Faults, name: string, mode: Mode)
    ensures var o := MkdirAllAt(nodes, faults, name, mode);
      && (forall k :: k in nodes ==> k in o.nodes && o.nodes[k] == nodes[k])
      && (forall k :: k in o.nodes && k !in nodes ==> o.nodes[k] == Directory(mode))
      && (o.err.None? ==> name != "" && IsDirAt(o.nodes, Clean(name)))
  {
    if name != "" {
      MkdirAllFrame(nodes, faults, Clean(name), mode);
    }
  }

  /** after holds every entry of before unchanged, and adds only directories with the given mode. */
  predicate AddsDirs(before: Nodes, after: Nodes, mode: Mode) {
    && (forall k :: k in before ==> k in after && after[k] == before[k])
    && (forall k :: k in after && k !in before ==> after[k] == Directory(mode))
  }

  lemma AddsDirsTrans(a: Nodes, b: Nodes, c: Nodes, mode: Mode)
    requires AddsDirs(a, b, mode) && AddsDirs(b, c, mode)
    ensures AddsDirs(a, c, mode)
  {
  }

  lemma {:induction false} MkdirEachFrame(nodes: Nodes, faults: Faults, dirs: seq<string>, mode: Mode)
    ensures var o := MkdirEach(nodes, faults, dirs, mode);
      && AddsDirs(nodes, o.nodes, mode)
      && (o.err.None? ==> forall i :: 0 <= i < |dirs| ==> dirs[i] != "" && IsDirAt(o.nodes, Clean(dirs[i])))
    decreases |dirs|
  {
    if dirs != [] {
      var o1 := MkdirAllAt(nodes, faults, dirs[0], mode);
      MkdirAllAtFrame(nodes, faults, dirs[0], mode);
      if o1.err.None? {
        MkdirEachFrame(o1.nodes, faults, dirs[1..], mode);
        var o := MkdirEach(o1.nodes, faults, dirs[1..], mode);
        AddsDirsTrans(nodes, o1.nodes, o.nodes, mode);
        if o.err.None? {
          assert IsDirAt(o.nodes, Clean(dirs[0]));
          forall i | 1 <= i < |dirs|
            ensures dirs[i] != "" && IsDirAt(o.nodes, Clean(dirs[i]))
          {
            assert dirs[i] == dirs[1..][i - 1];
          }
        }
      }
    }
  }

  /** A file that reads successfully after directories were only added was there before, with the same content. */
  lemma ReadThroughAddedDirs(before: Nodes, after: Nodes, faults: Faults, name: string)
    requires forall k :: k in before ==> k in after && after[k] == before[k]
    requires forall k :: k in after && k !in before ==> after[k].Directory?
    requires ReadFileAt(after, faults, name).Ok?
    ensures ReadFileAt(before, faults, name) == ReadFileAt(after, faults, name)
  {
    var p := Clean(name);
    assert p in after && after[p].RegularFile?;
  }

  // ---------------------------------------------------------------------------
  // Properties of the resolver

  /** Every error comes with a nil config, and every success with a config. */
  lemma NilConfigOnError(nodes: Nodes, faults: Faults, rootDir: string, dataPath: string, vol: VolumeConfig,
                         namespace: NamespaceLookup, findDynaKube: Namespace -> DynaKubeLookup)
    ensures var r := BindSpec(nodes, faults, rootDir, dataPath, vol, namespace, findDynaKube);
      r.cfg.None? <==> r.err.Some?
  {
  }

  /** FailedPrecondition exactly when the namespace cannot be read or has no DynaKube;
      Unavailable exactly when the DynaKube is found but its tenant file cannot be read.
      In these cases nothing on disk changes. */
  lemma ErrorCodes(nodes: Nodes, faults: Faults, rootDir: string, dataPath: string, vol: VolumeConfig,
                   namespace: NamespaceLookup, findDynaKube: Namespace -> DynaKubeLookup)
    ensures var r := BindSpec(nodes, faults, rootDir, dataPath, vol, namespace, findDynaKube);
      && (r.err == Some(FailedPrecondition) <==>
            namespace.NamespaceFailed? || findDynaKube(namespace.ns).NoDynaKube?)
      && (r.err == Some(Unavailable) <==>
            && namespace.NamespaceFound?
            && findDynaKube(namespace.ns).Assigned?
            && ReadFileAt(nodes, faults, TenantFile(rootDir, dataPath, findDynaKube(namespace.ns).dk.name)).Err?)
      && (namespace.NamespaceFound? && findDynaKube(namespace.ns).LookupFailed? ==> r.err == Some(Internal))
      && (!TenantReadable(nodes, faults, rootDir, dataPath, namespace, findDynaKube) ==> r.nodes == nodes)
  {
    var r := BindSpec(nodes, faults, rootDir, dataPath, vol, namespace, findDynaKube);
    if TenantReadable(nodes, faults, rootDir, dataPath, namespace, findDynaKube) {
      assert r.err.None? || r.err == Some(Internal);
    }
  }

  /** Once the tenant is known, the resolver only adds directories; if it got past
      the MkdirAll loop, both per-pod directories exist afterwards, even when the
      version file then fails to read; a failure of the loop is Internal. */
  lemma PodDirectories(nodes: Nodes, faults: Faults, rootDir: string, dataPath: string, vol: VolumeConfig,
                       namespace: NamespaceLookup, findDynaKube: Namespace -> DynaKubeLookup)
    requires TenantReadable(nodes, faults, rootDir, dataPath, namespace, findDynaKube)
    ensures var r := BindSpec(nodes, faults, rootDir, dataPath, vol, namespace, findDynaKube);
      var envDir := EnvDirOf(rootDir, dataPath, TenantUUID(nodes, faults, rootDir, dataPath, namespace, findDynaKube));
      var mk := MkdirEach(nodes, faults, PodDirs(envDir, vol.podUID), PodDirMode);
      && (forall k :: k in nodes ==> k in r.nodes && r.nodes[k] == nodes[k])
      && (forall k :: k in r.nodes && k !in nodes ==> r.nodes[k] == Directory(PodDirMode))
      && (mk.err.Some? ==> r.err == Some(Internal))
      && (mk.err.None? ==>
            && IsDirAt(r.nodes, Clean(Join([envDir, "log", vol.podUID])))
            && IsDirAt(r.nodes, Clean(Join([envDir, "datastorage", vol.podUID]))))
      && (mk.err.None? && ReadFileAt(mk.nodes, faults, VersionFile(envDir)).Err? ==> r.err == Some(Internal) && r.cfg.None?)
  {
    var envDir := EnvDirOf(rootDir, dataPath, TenantUUID(nodes, faults, rootDir, dataPath, namespace, findDynaKube));
    var dirs := PodDirs(envDir, vol.podUID);
    var mk := MkdirEach(nodes, faults, dirs, PodDirMode);
    AfterTenant(nodes, faults, rootDir, dataPath, vol, namespace, findDynaKube);
    assert AddsDirs(nodes, mk.nodes, PodDirMode) by {
      MkdirEachFrame(nodes, faults, dirs, PodDirMode);
    }
    if mk.err.None? {
      assert IsDirAt(mk.nodes, Clean(dirs[0])) && IsDirAt(mk.nodes, Clean(dirs[1])) by {
        MkdirEachFrame(nodes, faults, dirs, PodDirMode);
      }
    }
  }

  /** Past the tenant lookup, the resolver's state is the one the MkdirAll loop
      left, and its error is Internal when the loop or the version read fails. */
  lemma AfterTenant(nodes: Nodes, faults: Faults, rootDir: string, dataPath: string, vol: VolumeConfig,
                    namespace: NamespaceLookup, findDynaKube: Namespace -> DynaKubeLookup)
    requires TenantReadable(nodes, faults, rootDir, dataPath, namespace, findDynaKube)
    ensures var r := BindSpec(nodes, faults, rootDir, dataPath, vol, namespace, findDynaKube);
      var envDir := EnvDirOf(rootDir, dataPath, TenantUUID(nodes, faults, rootDir, dataPath, namespace, findDynaKube));
      var mk := MkdirEach(nodes, faults, PodDirs(envDir, vol.podUID), PodDirMode);
      && r.nodes == mk.nodes
      && (mk.err.Some? ==> r.err == Some(Internal))
      && (mk.err.None? && ReadFileAt(mk.nodes, faults, VersionFile(envDir)).Err? ==> r.err == Some(Internal) && r.cfg.None?)
  {
  }

  /** On success: envDir is <root>/<data>/<uuid>, agentDir is <root>/<data>/<uuid>/bin/<version>,
      and version is the content the version file had before the call. */
  lemma SuccessShape(nodes: Nodes, faults: Faults, rootDir: string, dataPath: string, vol: VolumeConfig,
                     namespace: NamespaceLookup, findDynaKube: Namespace -> DynaKubeLookup)
    requires TenantReadable(nodes, faults, rootDir, dataPath, namespace, findDynaKube)
    ensures var r := BindSpec(nodes, faults, rootDir, dataPath, vol, namespace, findDynaKube);
      var uuid := TenantUUID(nodes, faults, rootDir, dataPath, namespace, findDynaKube);
      r.err.None? ==>
        && r.cfg.Some?
        && r.cfg.value.envDir == Join([rootDir, dataPath, uuid])
        && r.cfg.value.agentDir == Join([rootDir, dataPath, uuid, "bin", r.cfg.value.version])
        && ReadFileAt(nodes, faults, Join([Join([rootDir, dataPath, uuid]), "version"])) == Ok(r.cfg.value.version)
  {
    var r := BindSpec(nodes, faults, rootDir, dataPath, vol, namespace, findDynaKube);
    var uuid := TenantUUID(nodes, faults, rootDir, dataPath, namespace, findDynaKube);
    var envDir := EnvDirOf(rootDir, dataPath, uuid);
    var mk := MkdirEach(nodes, faults, PodDirs(envDir, vol.podUID), PodDirMode);
    if r.err.None? {
      var ver := r.cfg.value.version;
      JoinFlatten([rootDir, dataPath, uuid], ["bin", ver]);
      assert [Join([rootDir, dataPath, uuid])] + ["bin", ver] == [envDir, "bin", ver];
      assert [rootDir, dataPath, uuid] + ["bin", ver] == [rootDir, dataPath, uuid, "bin", ver];
      MkdirEachFrame(nodes, faults, PodDirs(envDir, vol.podUID), PodDirMode);
      ReadThroughAddedDirs(nodes, mk.nodes, faults, VersionFile(envDir));
    }
  }

  // ---------------------------------------------------------------------------
  // The resolver itself

  /** newBindConfig. The namespace read and FindForNamespace are given as inputs. */
  method NewBindConfig(fs: FileSystem, rootDir: string, dataPath: string, vol: VolumeConfig,
                       namespace: NamespaceLookup, findDynaKube: Namespace -> DynaKubeLookup)
    returns (cfg: Option<BindConfig>, err: Option<Code>)
    requires fs.Valid()
    modifies fs
    ensures fs.Valid()
    ensures Bound(cfg, err, fs.nodes) == BindSpec(old(fs.nodes), fs.faults, rootDir, dataPath, vol, namespace, findDynaKube)
  {
    if namespace.NamespaceFailed? {
      return None, Some(FailedPrecondition);
    }
    var dk := findDynaKube(namespace.ns);
    if dk.LookupFailed? {
      return None, Some(Internal);
    } else if dk.NoDynaKube? {
      return None, Some(FailedPrecondition);
    }
    var tenantUUID := fs.ReadFile(TenantFile(rootDir, dataPath, dk.dk.name));
    if tenantUUID.Err? {
      return None, Some(Unavailable);
    }
    var envDir := EnvDirOf(rootDir, dataPath, tenantUUID.value);
    var dirs := PodDirs(envDir, vol.podUID);
    ghost var start := fs.nodes;
    var i := 0;
    while i < |dirs|
      invariant 0 <= i <= |dirs|
      invariant fs.Valid()
      invariant MkdirEach(start, fs.faults, dirs, PodDirMode) == MkdirEach(fs.nodes, fs.faults, dirs[i..], PodDirMode)
    {
      assert dirs[i..][0] == dirs[i] && dirs[i..][1..] == dirs[i + 1..];
      var e := fs.MkdirAll(dirs[i], PodDirMode);
      if e.Some? {
        return None, Some(Internal);
      }
      i := i + 1;
    }
    var ver := fs.ReadFile(VersionFile(envDir));
    if ver.Err? {
      return None, Some(Internal);
    }
    var agentDir := Join([envDir, "bin", ver.value]);
    return Some(BindConfig(agentDir, envDir, ver.value)), None;
  }
}
