# CSI code-module storage and the ActiveGate pod builder, in Dafny

This project models four pieces of the Dynatrace operator and proves
properties of them:

- **Binary garbage collector** (`runBinaryGarbageCollection`). It lists the
  usage ledger `<root>/<data>/<env>/gc/`. For every version there that is not
  the latest and whose ledger directory is empty, it deletes
  `bin/<v>-default`, `bin/<v>-musl` and `gc/<v>`.
- **Bind-config resolver** (`newBindConfig`). It runs a chain of lookups:
  the namespace, the owning DynaKube, the tenant file, the per-pod
  directories and the version file. It maps each failure to a gRPC code and
  on success returns `agentDir`, `envDir` and `version`.
- **Archive extractor and installer** (`unzip`, `installAgent`). `unzip`
  writes archive entries below a target directory. It rejects entries that
  would land outside it (the zip-slip check) and makes `agent/conf/` files
  group-writable. `installAgent` downloads an installer into a temporary
  file, makes it executable, runs it and always removes the file.
- **Pod builder** (`BuildLabels`, `BuildLabelsForQuery`,
  `BuildActiveGatePodSpecs` and the env, args and affinity builders).

Files:

| file | module | contents |
|---|---|---|
| `paths.dfy` | `Paths` | Go's `filepath.Clean`, `Join` and `Dir` on Unix, and `strings.HasPrefix` |
| `filesystem.dfy` | `Fs` | the filesystem as a map from cleaned path to node, plus a set of failing operations; the `FileSystem` class |
| `gc_binaries.dfy` | `BinaryGc` | the garbage collector |
| `bind_config.dfy` | `BindConfig` | the bind-config resolver |
| `agent.dfy` | `Provisioner` | `unzip` and `installAgent` |
| `pod_builder.dfy` | `PodBuilder` | labels and the ActiveGate pod spec |
| `wrappers.dfy` | `Wrappers` | `Option` |

**How the filesystem is modelled.** A state maps each cleaned path to one of
two nodes:

- a directory, with its mode;
- a regular file, with its mode and content.

A separate fixed set of (operation, path) pairs names the operations that
fail with a permission error. This stands in for EACCES and EIO.

Every operation is a function from state to an error and a new state. The
`FileSystem` class holds the state. Each of its methods is tied to one of
these functions, and each keeps the predicate `TreeClosed`: every entry's
parent is a directory.

The GC, bind and unzip code run as methods over a `FileSystem`. Each method
is proved equal to a specification function. The properties are lemmas
about those functions.

**Behaviour worth noting.**

- The GC pass is not all-or-nothing. Versions deleted before an error stay
  deleted (`BinaryGc.LoopConcat`). Run again over the surviving names, in the
  same order, the pass fails at the same version with the same error
  (`BinaryGc.FailedPassRepeats`).
- `unzip` opens each entry before its zip-slip check. An entry that cannot be
  opened therefore fails with the open error even if its path is illegal. A
  rejected entry returns a plain error, with no gRPC code.

**Where the extractor writes.** `Provisioner.UnzipConfined` states what can
change outside the cleaned target directory, with names resolved lexically
(see `Fs.FileSystem.MkdirAll` under "## Left out"). The only such change is
creating directories on the way down to the target itself. That can happen
only in the first `MkdirAll(outDir)` and when that call failed. Once the
target is a directory, everything the entries create or change lies
strictly inside it. The target name is the one string `MkdirAll` receives
uncleaned; when it has a `..` after a missing element, `os.MkdirAll` also
creates that element, which the model does not show.

**Extraction into `/` or `.`.** When the target cleans to `/` or `.`, the
check rejects every entry. The prefix it compares with is then `//` or
`./`, and no joined path starts with either (`Provisioner.ZipSlipCheck`).

**A stale test name.** The case named "failed to create directories"
triggers no mkdir error. It fails at the version-file read instead
(controllers/csi/driver/bind_config_test.go:75-94). That case is covered by
`BindConfig.PodDirectories`: the directories stay and the result is
`Internal`.

## Model

| member | source | states |
|---|---|---|
| Paths.Clean | controllers/csi/provisioner/agent.go:98 | the result is a well-formed cleaned path: no empty or "." elements, ".." only as a leading run of a relative path |
| Paths.CleanRender | controllers/csi/provisioner/agent.go:98 | cleaning the rendering of a cleaned path gives the path back |
| Paths.CleanIdempotent | controllers/csi/provisioner/agent.go:98 | Clean applied to an already cleaned string changes nothing |
| Paths.JoinEmpty | controllers/csi/provisioner/agent.go:95 | filepath.Join is "" exactly when all elements are empty, and otherwise is a cleaned string |
| Paths.JoinSnoc | controllers/csi/gc/binaries.go:25 | joining one more plain name appends exactly that element to the cleaned path |
| Paths.JoinFlatten | controllers/csi/driver/bind_config.go:56 | Join(Join(xs), ys...) equals Join(xs..., ys...) |
| Paths.DirRender | controllers/csi/provisioner/agent.go:113 | filepath.Dir of a cleaned path with at least one element cleans to its parent |
| Paths.PrefixCheckSound | controllers/csi/provisioner/agent.go:98 | if the rendering of p starts with the rendering of q plus "/", then p lies strictly inside q |
| Paths.PrefixCheckComplete | controllers/csi/provisioner/agent.go:98 | for q other than "/" and ".", every p strictly inside q passes the prefix test |
| Paths.PrefixCheckRejectsAtTop | controllers/csi/provisioner/agent.go:98 | when q is "/" or ".", no cleaned path passes the prefix test |
| Fs.ChildNamesSpec | controllers/csi/gc/binaries.go:15 | a name is listed for a directory exactly when that child exists |
| Fs.MkdirAllFrame | controllers/csi/driver/bind_config.go:46 | MkdirAll keeps every existing entry, adds only directories with the given mode on the way to p, leaves p a directory on success, and fails exactly when the walk meets a file or a failing mkdir |
| Fs.MkdirAllKeepsTree | controllers/csi/driver/bind_config.go:46 | MkdirAll keeps the tree closed |
| Fs.RemoveAllKeepsTree | controllers/csi/gc/binaries.go:41-52 | RemoveAll keeps the tree closed |
| Fs.FileSystem.ReadDir | controllers/csi/gc/binaries.go:15 | the result is the os.ReadDir outcome of the cleaned path; a listing gives each child name exactly once |
| Fs.FileSystem.ReadFile | controllers/csi/driver/bind_config.go:36 | the result is the file read outcome of the cleaned path |
| Fs.FileSystem.MkdirAll | controllers/csi/driver/bind_config.go:46 | the error and new state are those of os.MkdirAll on the cleaned name; the tree stays closed |
| Fs.FileSystem.RemoveAll | controllers/csi/gc/binaries.go:41 | the error and new state are those of os.RemoveAll; the tree stays closed |
| Fs.FileSystem.WriteFile | controllers/csi/provisioner/agent.go:118-131 | the error and new state are those of OpenFile with create and truncate, followed by writing the content |
| Fs.FileSystem.Chmod | controllers/csi/provisioner/agent.go:61 | the error and new state are those of os.Chmod |
| Fs.FileSystem.Remove | controllers/csi/provisioner/agent.go:49 | the error and new state are those of os.Remove |
| Fs.FileSystem.CreateExclusive | controllers/csi/provisioner/agent.go:43 | the error and new state are those of an exclusive create with mode 0600 |
| BinaryGc.RunBinaryGarbageCollection | controllers/csi/gc/binaries.go:12-57 | the error and the new filesystem are those of the GC pass over the order in which the listing of gc/ came back, and that order lists each ledger entry exactly once |
| BinaryGc.CollectAll | controllers/csi/gc/binaries.go:24-54 | the loop over the listed names: its error and new filesystem are those of the pass over the names in listing order, stopping at the first error |
| BinaryGc.CollectVersion | controllers/csi/gc/binaries.go:25-53 | one loop iteration: skip the latest version, fail if its ledger cannot be listed, keep it if the ledger is non-empty, else the three removals |
| BinaryGc.DeleteVersion | controllers/csi/gc/binaries.go:39-53 | removes bin/v-default, then bin/v-musl, then gc/v, stopping at the first error |
| BinaryGc.MissingLedgerIsNoop | controllers/csi/gc/binaries.go:15-20 | when gc/ does not exist, the pass succeeds and the filesystem is unchanged |
| BinaryGc.LedgerReadErrorChangesNothing | controllers/csi/gc/binaries.go:21 | any other error listing gc/ is returned, and nothing changes |
| BinaryGc.LatestIsKept | controllers/csi/gc/binaries.go:29-31 | no path of the latest version changes, even if its ledger is empty |
| BinaryGc.InUseIsKept | controllers/csi/gc/binaries.go:32-39 | a version whose ledger lists at least one entry keeps its three paths and everything below them |
| BinaryGc.UnusedIsRemoved | controllers/csi/gc/binaries.go:39-53 | after a successful pass, a listed non-latest version with an empty ledger has none of its three paths, nor anything below them |
| BinaryGc.PassOnlyDeletesCollectable | controllers/csi/gc/binaries.go:24-54 | whatever the outcome, the pass only deletes, and it deletes only paths of listed non-latest versions whose ledger was empty |
| BinaryGc.LoopEffect | controllers/csi/gc/binaries.go:24-54 | the loop leaves a sub-map of the input; what it deletes belongs to the versions it collected; on success the result is exactly those versions swept |
| BinaryGc.LoopConcat | controllers/csi/gc/binaries.go:32-35 | the loop works in listing order and stops at the first error; work done before the error stays done |
| BinaryGc.PassIdempotent | controllers/csi/gc/binaries.go:24-54 | a second pass after a successful one, with no change in between, succeeds and changes nothing |
| BinaryGc.FailedPassRepeats | controllers/csi/gc/binaries.go:24-54 | a second pass after a failed one, with no change in between and the surviving names listed in the same order, fails with the same error and changes nothing more |
| BinaryGc.FailedStepRepeats | controllers/csi/gc/binaries.go:29-53 | a version whose step failed, processed again, fails the same way, changes nothing more and keeps its ledger directory |
| BinaryGc.LayoutPaths | controllers/csi/gc/binaries.go:13 | gcPath is non-empty and cleans to E/gc |
| BinaryGc.BinaryPaths | controllers/csi/gc/binaries.go:25-45 | binaryPath+"-default" and binaryPath+"-musl" clean to E/bin/v-default and E/bin/v-musl |
| BinaryGc.LedgerPath | controllers/csi/gc/binaries.go:32-49 | Join(gcPath, v) cleans to E/gc/v |
| BindConfig.NewBindConfig | controllers/csi/driver/bind_config.go:23-63 | the config, error code and new filesystem are those of the lookup chain |
| BindConfig.NilConfigOnError | controllers/csi/driver/bind_config.go:26-62 | the config is nil exactly when an error is returned |
| BindConfig.ErrorCodes | controllers/csi/driver/bind_config.go:24-39 | FailedPrecondition exactly when the namespace is unreadable or has no DynaKube; Unavailable exactly when the tenant file is unreadable; a lookup error gives Internal; none of these change the filesystem |
| BindConfig.PodDirectories | controllers/csi/driver/bind_config.go:40-54 | after the tenant is known, only directories with mode 0777 are added; if the mkdir loop succeeds, both log/<pod> and datastorage/<pod> exist even when the version read then fails with Internal; a mkdir failure is Internal |
| BindConfig.SuccessShape | controllers/csi/driver/bind_config.go:40-62 | on success envDir = Join(root, data, uuid), agentDir = Join(root, data, uuid, "bin", version), and version is the content the version file had before the call |
| BindConfig.MkdirEachFrame | controllers/csi/driver/bind_config.go:42-49 | the mkdir loop keeps every existing entry, adds only directories, and on success leaves every listed directory in place |
| Provisioner.EntryMode | controllers/csi/provisioner/agent.go:102-107 | below agent/conf/ the computed mode has the group-write bit set; everywhere else it is the archive's mode unchanged |
| Provisioner.EntryModeBits | controllers/csi/provisioner/agent.go:102-107 | the computed mode differs from the archive mode at most in the group-write bit, and it carries the directory bit exactly when the entry is a directory |
| Provisioner.PathAcceptedSound | controllers/csi/provisioner/agent.go:95-100 | a cleaned path the check accepts lies strictly inside the cleaned target |
| Provisioner.ZipSlipCheck | controllers/csi/provisioner/agent.go:95-100 | an accepted path is non-empty, cleaned and strictly inside the cleaned target; for a target other than "/" and "." every path strictly inside is accepted; for "/" or "." nothing is |
| Provisioner.ExtractConfined | controllers/csi/provisioner/agent.go:83-133 | an unopenable or rejected entry changes nothing; an accepted one removes nothing and changes only paths strictly inside the target, apart from new directories on the way to it, and none of those once the target is a directory |
| Provisioner.ExtractResult | controllers/csi/provisioner/agent.go:109-131 | a directory entry keeps every existing entry and adds only directories with the computed mode on the way to its path; a file entry keeps every entry but its path and adds only such directories on the way to its parent; on success a directory entry leaves a directory, and a file entry a regular file with the entry's content, with the computed mode when new and its old mode when it existed |
| Provisioner.PlaceResult | controllers/csi/provisioner/agent.go:109-131 | the same, on the cleaned path: existing entries kept (all but the file's own path), new entries only directories with the given mode on the way to the path or its parent, and the success results |
| Provisioner.UnzipLoopConcat | controllers/csi/provisioner/agent.go:135-141 | entries are processed in order; the first error stops the loop and earlier entries stay extracted |
| Provisioner.FirstErrorStops | controllers/csi/provisioner/agent.go:135-141 | when entry i is the first to fail, the result is that failure on the state the earlier entries reached |
| Provisioner.UnzipConfined | controllers/csi/provisioner/agent.go:75-142 | with names resolved lexically, unzip removes nothing; every entry it adds or changes is strictly inside the target or a new directory on the way to it; every file it writes is strictly inside; after a successful first MkdirAll only paths strictly inside change |
| Provisioner.Extract | controllers/csi/provisioner/agent.go:83-133 | the error and new state are those of the extract closure |
| Provisioner.Unzip | controllers/csi/provisioner/agent.go:75-142 | the error and new state are those of unzip: MkdirAll of the target with its error ignored, then the entries |
| Provisioner.InstallAgent | controllers/csi/provisioner/agent.go:37-73 | the error, new state and step trace are those of installAgent |
| Provisioner.RunInstaller | controllers/csi/provisioner/agent.go:55-70 | the error, new state and steps between creating and removing the temporary file |
| Provisioner.CleanupOnEveryPath | controllers/csi/provisioner/agent.go:43-52 | if the temporary file cannot be created, nothing else happens; once it exists, removing it is the last step and happens exactly once |
| Provisioner.RemovalFailureIgnored | controllers/csi/provisioner/agent.go:47-52 | the returned error and the steps do not depend on whether removing the temporary file fails |
| Provisioner.StepOrder | controllers/csi/provisioner/agent.go:55-70 | a failed download returns DownloadFailed without chmod or exec; exec happens only after chmod; success means the installer ran |
| Provisioner.InstallerAsRun | controllers/csi/provisioner/agent.go:55-66 | when the installer runs, the temporary file holds the download with mode 0500 |
| Provisioner.BodyOnTempFile | controllers/csi/provisioner/agent.go:43-63 | between create and remove only the temporary file is added, and it stays a regular file |
| Provisioner.NothingLeftBehind | controllers/csi/provisioner/agent.go:37-73 | with a plain temporary file name and no failing removal, the filesystem afterwards equals the filesystem before |
| PodBuilder.BuildLabelsForQuery | pkg/controller/builder/pod_builder.go:136-141 | the query labels are exactly dynatrace=activegate and activegate=<name> |
| PodBuilder.BuildLabels | pkg/controller/builder/pod_builder.go:127-133 | the keys are the query keys plus the user's keys; user values win; query values stay where the user sets none; no user labels give exactly the query labels |
| PodBuilder.WithCPUDefault | pkg/controller/builder/pod_builder.go:32-38 | the result has every old request unchanged plus a CPU request, which is 100m when none was set |
| PodBuilder.CPUDefaultIdempotent | pkg/controller/builder/pod_builder.go:32-38 | defaulting the requests twice is defaulting them once |
| PodBuilder.BuildActiveGatePodSpecs | pkg/controller/builder/pod_builder.go:12-56 | a non-empty service account name in the spec becomes the monitoring account; the requests are defaulted in place; nothing else in the spec changes; the pod runs under the monitoring account and has one ActiveGate container with PullAlways, the spec image or the default image, the fixed env and args, and the spec's scheduling fields |
| PodBuilder.EnvLookup | pkg/controller/builder/pod_builder.go:67-86 | four variables with distinct names; looking up DT_TENANT, DT_TOKEN, DT_SERVER and DT_CAPABILITIES gives the tenant id, token, endpoint and comma-joined capabilities; no other name is defined |
| PodBuilder.NilTenantGivesEmptyValues | pkg/controller/builder/pod_builder.go:24-30 | with no tenant info, tenant, token and server are "" |
| PodBuilder.JoinSplit | pkg/controller/builder/pod_builder.go:83 | capabilities without commas are recovered by splitting DT_CAPABILITIES on "," |
| PodBuilder.BuildEnvVars | pkg/controller/builder/pod_builder.go:67-86 | four variables with distinct names DT_TENANT, DT_TOKEN, DT_SERVER, DT_CAPABILITIES, carrying the tenant id, token, communication endpoint and the comma-joined capabilities |
| PodBuilder.BuildArgs | pkg/controller/builder/pod_builder.go:58-65 | four arguments, the i-th ending in =$(NAME) of the i-th variable name |
| PodBuilder.ArgsReferenceEnv | pkg/controller/builder/pod_builder.go:58-65 | the i-th argument ends in =$(NAME) of the i-th environment variable |
| PodBuilder.BuildAffinity | pkg/controller/builder/pod_builder.go:88-125 | two alternative terms, with the beta and with the stable label keys, each asking for arch amd64 or arm64 and os linux |
| PodBuilder.AffinityMeaning | pkg/controller/builder/pod_builder.go:88-125 | a node qualifies exactly when its beta or its stable arch label is amd64 or arm64 and the matching os label is linux |

## Left out

- Logging: every `logger` call is left out.
- The Kubernetes namespace read and `codemodules.FindForNamespace` are foreign calls. They are inputs to `BindConfig.NewBindConfig`, as their results.
- The value of `dtcsi.DataPath` is not part of this model. It is a parameter, `dataPath`. The ledger directory is named `gc` (`BinaryGc.GarbageCollectionPath`), the name the CSI driver gives it; the definition of `dtcsi.GarbageCollectionPath` is not part of this model.
- Fs.FileSystem.ReadDir: `os.ReadDir` sorts by name; the model returns the names in some order and quantifies over every order.
- Symbolic links are not modelled; `Provisioner.UnzipConfined` confines the cleaned path names, and a link inside the target is not followed.
- Fs.FileSystem.MkdirAll: the model cleans the name and resolves `..` lexically, so `x/../y` is `y`. `os.MkdirAll` walks the name as given, so with `x` missing it also creates `x`. Every name these files pass to `MkdirAll` is already clean except the extraction target in `unzip` (controllers/csi/provisioner/agent.go:80); for a target with `..` after a missing element, that extra directory is not modelled.
- Fs.FileSystem.RemoveAll: a failing `os.RemoveAll` may have removed part of the tree; the model removes all or nothing.
- Modes: the model records the mode bits passed to MkdirAll, OpenFile and Chmod as given. The umask and the conversion to Unix permission bits are left out.
- The relative versus absolute namespace: the model has no working directory. A relative path and the absolute path it would resolve to are different keys.
- Provisioner.Unzip: `io.Copy` is modelled as "file content := entry content"; a read or decompression error while copying is not modelled. Closing the file and the entry is left out.
- Provisioner.ZipEntry: the mode an entry's header yields, including the directory bit, is taken as given. How `zip.FileHeader.Mode` derives it from the external attributes and a trailing "/" is not modelled.
- Provisioner.InstallAgent: `afero.TempFile` retries with a new random name when the name exists; the model makes one attempt with a given suffix. The Dynatrace client's download and `exec.Command` are foreign calls. They are inputs, as what the download delivers and whether the script succeeds. The script's own effects on the filesystem are not modelled. The download writes through the open handle; the model writes to the path.
- PodBuilder.BuildActiveGatePodSpecs: in Go the container's `Resources` shares the spec's requests map; the model copies values, so aliasing is not modelled. A nil user label map is modelled as the empty map.
- Error message texts are left out; only the error kinds and gRPC codes are modelled.
- Concurrency between publish and GC: none is implemented in these files.
- `controllers/csi/gc/controller.go` is orchestration around Kubernetes and Dynatrace API calls, and is left out. `runBinaryGarbageCollection` takes `latestVersion` as an input.
