/** The ActiveGate pod builder: the labels of ActiveGate objects, and the pod
    spec of the ActiveGate container, which also fills in defaults in the
    custom resource's spec. */
module PodBuilder {
  import opened Wrappers

  const ActivegateImage := "612044533526.dkr.ecr.us-east-1.amazonaws.com/activegate:latest"
  const ActivegateName := "dynatrace-activegate-operator"
  const MonitoringServiceAccount := "dynatrace-activegate"

  const KubernetesArch := "kubernetes.io/arch"
  const KubernetesOs := "kubernetes.io/os"
  const KubernetesBetaArch := "beta.kubernetes.io/arch"
  const KubernetesBetaOs := "beta.kubernetes.io/os"

  const AMD64 := "amd64"
  const ARM64 := "arm64"
  const LINUX := "linux"

  const DtTenant := "DT_TENANT"
  const DtServer := "DT_SERVER"
  const DtToken := "DT_TOKEN"
  const DtCapabilities := "DT_CAPABILITIES"

  /** flag=$(NAME): a flag whose value Kubernetes expands from the variable NAME. */
  function FlagFromEnv(flag: string, name: string): string {
    flag + "=$(" + name + ")"
  }

  const DtTenantArg := FlagFromEnv("--tenant", DtTenant)                // --tenant=$(DT_TENANT)
  const DtTokenArg := FlagFromEnv("--token", DtToken)                   // --token=$(DT_TOKEN)
  const DtServerArg := FlagFromEnv("--server", DtServer)                // --server=$(DT_SERVER)
  const DtCapabilitiesArg := FlagFromEnv("--enable", DtCapabilities)    // --enable=$(DT_CAPABILITIES)

  const Comma: char := ','

  /** corev1.ResourceCPU */
  const ResourceCPU := "cpu"

  type Labels = map<string, string>

  // ---------------------------------------------------------------------------
  // Labels

  /** The labels that select the pods of the ActiveGate called name. */
  function BuildLabelsForQuery(name: string): (r: Labels)
    ensures r.Keys == {"dynatrace", "activegate"}
    ensures r["dynatrace"] == "activegate" && r["activegate"] == name
  {
    map["dynatrace" := "activegate", "activegate" := name]
  }

  /** The query labels with the user's labels written over them. A nil map of
      user labels reads as the empty map. */
  method BuildLabels(name: string, labels: Labels) returns (result: Labels)
    ensures result.Keys == {"dynatrace", "activegate"} + labels.Keys
    ensures forall k :: k in labels ==> result[k] == labels[k]
    ensures "dynatrace" !in labels ==> result["dynatrace"] == "activegate"
    ensures "activegate" !in labels ==> result["activegate"] == name
    ensures labels == map[] ==> result == BuildLabelsForQuery(name)
  {
    result := BuildLabelsForQuery(name);
    var todo := labels.Keys;
    while todo != {}
      invariant todo <= labels.Keys
      invariant result.Keys == {"dynatrace", "activegate"} + (labels.Keys - todo)
      invariant forall k :: k in labels && k !in todo ==> result[k] == labels[k]
      invariant forall k :: k in result && (k !in labels || k in todo) ==> result[k] == BuildLabelsForQuery(name)[k]
      decreases todo
    {
      var key :| key in todo;
      result := result[key := labels[key]];
      todo := todo - {key};
    }
  }

  // ---------------------------------------------------------------------------
  // Kubernetes values the pod spec is made of

  /** resource.Quantity as NewScaledQuantity builds it: value * 10^scale. */
  datatype Quantity = Quantity(value: int, scale: int)

  type ResourceList = map<string, Quantity>

  /** corev1.ResourceRequirements; None is a nil map. */
  datatype ResourceRequirements = ResourceRequirements(limits: Option<ResourceList>, requests: Option<ResourceList>)

  datatype Toleration = Toleration(key: string, operator: string, value: string, effect: string)

  datatype TenantInfo = TenantInfo(id: string, token: string, endpoints: seq<string>, communicationEndpoint: string)

  datatype EnvVar = EnvVar(name: string, value: string)

  datatype PullPolicy = PullAlways | PullIfNotPresent | PullNever

  datatype Container = Container(name: string, image: string, resources: ResourceRequirements,
                                 imagePullPolicy: PullPolicy, env: seq<EnvVar>, args: seq<string>)

  /** A node selector requirement with the In operator. */
  datatype Requirement = In(key: string, values: seq<string>)

  /** A required node affinity: a node qualifies when it meets every
      requirement of at least one term. */
  datatype Affinity = Affinity(terms: seq<seq<Requirement>>)

  datatype PodSpec = PodSpec(containers: seq<Container>, dnsPolicy: string, nodeSelector: Labels,
                             serviceAccountName: string, affinity: Affinity, tolerations: seq<Toleration>,
                             priorityClassName: string)

  // ---------------------------------------------------------------------------
  // Env, args and affinity

  /** strings.Join with a one-character separator. */
  function JoinWith(parts: seq<string>, sep: char): string
    decreases |parts|
  {
    if parts == [] then ""
    else if |parts| == 1 then parts[0]
    else parts[0] + [sep] + JoinWith(parts[1..], sep)
  }

  /** strings.Split with a one-character separator. */
  function SplitOn(s: string, sep: char): (r: seq<string>)
    ensures |r| >= 1
    decreases |s|
  {
    if s == [] then [""]
    else if s[0] == sep then [""] + SplitOn(s[1..], sep)
    else
      var rest := SplitOn(s[1..], sep);
      [[s[0]] + rest[0]] + rest[1..]
  }

  predicate Free(s: string, sep: char) {
    forall i :: 0 <= i < |s| ==> s[i] != sep
  }

  lemma {:induction false} SplitFree(s: string, sep: char)
    requires Free(s, sep)
    ensures SplitOn(s, sep) == [s]
    decreases |s|
  {
    if s != [] {
      SplitFree(s[1..], sep);
      assert [s[0]] + s[1..] == s;
    }
  }

  lemma {:induction false} SplitAppend(a: string, b: string, sep: char)
    requires Free(a, sep)
    ensures SplitOn(a + [sep] + b, sep) == [a] + SplitOn(b, sep)
    decreases |a|
  {
    if a == [] {
      assert a + [sep] + b == [sep] + b;
      assert ([sep] + b)[1..] == b;
    } else {
      assert (a + [sep] + b)[0] == a[0];
      assert (a + [sep] + b)[1..] == a[1..] + [sep] + b;
      SplitAppend(a[1..], b, sep);
      assert [a[0]] + a[1..] == a;
    }
  }

  /** Capabilities without commas can be read back from DT_CAPABILITIES by splitting on ",". */
  lemma {:induction false} JoinSplit(parts: seq<string>, sep: char)
    requires |parts| >= 1
    requires forall i :: 0 <= i < |parts| ==> Free(parts[i], sep)
    ensures SplitOn(JoinWith(parts, sep), sep) == parts
    decreases |parts|
  {
    if |parts| == 1 {
      SplitFree(parts[0], sep);
    } else {
      JoinSplit(parts[1..], sep);
      SplitAppend(parts[0], JoinWith(parts[1..], sep), sep);
      assert parts == [parts[0]] + parts[1..];
    }
  }

  /** The names of the container's environment variables, in order. */
  const EnvNames := [DtTenant, DtToken, DtServer, DtCapabilities]

  /** The environment of the ActiveGate container: four variables with
      distinct names, carrying the tenant's id, token and endpoint and the
      capabilities joined by commas. */
  function BuildEnvVars(capabilities: seq<string>, tenant: TenantInfo): (r: seq<EnvVar>)
    ensures |r| == |EnvNames| && forall i :: 0 <= i < |r| ==> r[i].name == EnvNames[i]
    ensures forall i, j :: 0 <= i < j < |r| ==> r[i].name != r[j].name
    ensures r[0].value == tenant.id && r[1].value == tenant.token && r[2].value == tenant.communicationEndpoint
    ensures r[3].value == JoinWith(capabilities, Comma)
  {
    [ EnvVar(DtTenant, tenant.id),
      EnvVar(DtToken, tenant.token),
      EnvVar(DtServer, tenant.communicationEndpoint),
      EnvVar(DtCapabilities, JoinWith(capabilities, Comma)) ]
  }

  /** The container's arguments: the i-th one hands the i-th environment
      variable to a flag, as $(NAME). */
  function BuildArgs(): (r: seq<string>)
    ensures |r| == |EnvNames|
    ensures forall i :: 0 <= i < |r| ==> HasSuffix(r[i], "=$(" + EnvNames[i] + ")")
  {
    var args := [DtTenantArg, DtTokenArg, DtServerArg, DtCapabilitiesArg];
    assert forall i :: 0 <= i < |args| ==> HasSuffix(args[i], "=$(" + EnvNames[i] + ")") by {
      forall i | 0 <= i < |args|
        ensures HasSuffix(args[i], "=$(" + EnvNames[i] + ")")
      {
        if i == 0 {
          ArgReferences("--tenant", DtTenant);
        } else if i == 1 {
          ArgReferences("--token", DtToken);
        } else if i == 2 {
          ArgReferences("--server", DtServer);
        } else {
          ArgReferences("--enable", DtCapabilities);
        }
      }
    }
    args
  }

  /** The value of the first variable called name. */
  function EnvValue(env: seq<EnvVar>, name: string): Option<string>
    decreases |env|
  {
    if env == [] then None
    else if env[0].name == name then Some(env[0].value)
    else EnvValue(env[1..], name)
  }

  /** The four variables have distinct names, so looking each one up finds the
      value it was built from; no other name is defined. */
  lemma EnvLookup(capabilities: seq<string>, tenant: TenantInfo, name: string)
    ensures var env := BuildEnvVars(capabilities, tenant);
      && |env| == 4
      && (forall i, j :: 0 <= i < j < |env| ==> env[i].name != env[j].name)
      && EnvValue(env, DtTenant) == Some(tenant.id)
      && EnvValue(env, DtToken) == Some(tenant.token)
      && EnvValue(env, DtServer) == Some(tenant.communicationEndpoint)
      && EnvValue(env, DtCapabilities) == Some(JoinWith(capabilities, Comma))
      && (name !in {DtTenant, DtToken, DtServer, DtCapabilities} ==> EnvValue(env, name) == None)
  {
    var env := BuildEnvVars(capabilities, tenant);
    assert DtTenant != DtToken && DtTenant != DtServer && DtTenant != DtCapabilities;
    assert DtToken != DtServer && DtToken != DtCapabilities && DtServer != DtCapabilities;
    assert env[1..] == [env[1], env[2], env[3]];
    assert env[1..][1..] == [env[2], env[3]];
    assert env[1..][1..][1..] == [env[3]];
    assert env[1..][1..][1..][1..] == [];
    var e3 := env[1..][1..][1..];
    assert EnvValue(e3, DtCapabilities) == Some(JoinWith(capabilities, Comma));
    assert EnvValue(env[1..][1..], DtServer) == Some(tenant.communicationEndpoint);
    assert EnvValue(env[1..][1..], DtCapabilities) == EnvValue(e3, DtCapabilities);
    assert EnvValue(env[1..], DtCapabilities) == EnvValue(env[1..][1..], DtCapabilities);
    assert EnvValue(env[1..], DtServer) == EnvValue(env[1..][1..], DtServer);
    if name !in {DtTenant, DtToken, DtServer, DtCapabilities} {
      assert EnvValue(e3, name) == None;
      assert EnvValue(env[1..][1..], name) == None;
      assert EnvValue(env[1..], name) == None;
    }
  }

  predicate HasSuffix(s: string, suffix: string) {
    |suffix| <= |s| && s[|s| - |suffix|..] == suffix
  }

  lemma SuffixOfConcat(a: string, b: string)
    ensures HasSuffix(a + b, b)
  {
    assert (a + b)[|a|..] == b;
  }

  /** The argument flag--NAME... refers to the variable NAME as $(NAME). */
  lemma ArgReferences(flag: string, name: string)
    ensures HasSuffix(FlagFromEnv(flag, name), "=$(" + name + ")")
  {
    assert FlagFromEnv(flag, name) == flag + ("=$(" + name + ")");
    SuffixOfConcat(flag, "=$(" + name + ")");
  }

  /** The i-th argument refers to the i-th environment variable as $(NAME);
      this follows from the contracts of BuildEnvVars and BuildArgs. */
  lemma ArgsReferenceEnv(capabilities: seq<string>, tenant: TenantInfo)
    ensures var env := BuildEnvVars(capabilities, tenant);
      |BuildArgs()| == |env| &&
      forall i :: 0 <= i < |env| ==> HasSuffix(BuildArgs()[i], "=$(" + env[i].name + ")")
  {
  }

  /** Two alternative terms, one with the beta label keys and one with the
      stable ones; each asks for arch amd64 or arm64 and os linux. */
  function BuildAffinity(): (r: Affinity)
    ensures |r.terms| == 2
    ensures forall t :: 0 <= t < |r.terms| ==>
      |r.terms[t]| == 2 && r.terms[t][0].values == [AMD64, ARM64] && r.terms[t][1].values == [LINUX]
    ensures r.terms[0][0].key == KubernetesBetaArch && r.terms[0][1].key == KubernetesBetaOs
    ensures r.terms[1][0].key == KubernetesArch && r.terms[1][1].key == KubernetesOs
  {
    Affinity([
      [In(KubernetesBetaArch, [AMD64, ARM64]), In(KubernetesBetaOs, [LINUX])],
      [In(KubernetesArch, [AMD64, ARM64]), In(KubernetesOs, [LINUX])]
    ])
  }

  predicate MeetsRequirement(node: Labels, r: Requirement) {
    r.key in node && node[r.key] in r.values
  }

  predicate MeetsTerm(node: Labels, term: seq<Requirement>) {
    forall i :: 0 <= i < |term| ==> MeetsRequirement(node, term[i])
  }

  /** Kubernetes' reading of a required node affinity. */
  predicate Schedulable(node: Labels, a: Affinity) {
    exists i :: 0 <= i < |a.terms| && MeetsTerm(node, a.terms[i])
  }

  /** The ActiveGate runs on linux nodes with amd64 or arm64, labelled with
      either the beta or the stable label keys. */
  lemma AffinityMeaning(node: Labels)
    ensures Schedulable(node, BuildAffinity()) <==>
      || (KubernetesBetaArch in node && node[KubernetesBetaArch] in {AMD64, ARM64}
          && KubernetesBetaOs in node && node[KubernetesBetaOs] == LINUX)
      || (KubernetesArch in node && node[KubernetesArch] in {AMD64, ARM64}
          && KubernetesOs in node && node[KubernetesOs] == LINUX)
  {
    var a := BuildAffinity();
    if KubernetesBetaArch in node && node[KubernetesBetaArch] in {AMD64, ARM64}
       && KubernetesBetaOs in node && node[KubernetesBetaOs] == LINUX {
      assert MeetsTerm(node, a.terms[0]);
    }
    if KubernetesArch in node && node[KubernetesArch] in {AMD64, ARM64}
       && KubernetesOs in node && node[KubernetesOs] == LINUX {
      assert MeetsTerm(node, a.terms[1]);
    }
    if Schedulable(node, a) {
      var i :| 0 <= i < |a.terms| && MeetsTerm(node, a.terms[i]);
      assert MeetsRequirement(node, a.terms[i][0]) && MeetsRequirement(node, a.terms[i][1]);
    }
  }

  // ---------------------------------------------------------------------------
  // Defaults

  /** 1 * 10^-1 cores, 100m */
  const DefaultCPURequest := Quantity(1, -1)

  /** The tenant info used when none is given. */
  const EmptyTenant := TenantInfo("", "", [], "")

  /** The requests after defaulting: a nil map becomes a map, and a missing CPU request becomes 100m. */
  function WithCPUDefault(requests: Option<ResourceList>): (r: ResourceList)
    ensures r.Keys == (if requests.Some? then requests.value.Keys else {}) + {ResourceCPU}
    ensures requests.Some? ==> forall k :: k in requests.value ==> r[k] == requests.value[k]
    ensures requests.None? || ResourceCPU !in requests.value ==> r[ResourceCPU] == DefaultCPURequest
  {
    var m := if requests.None? then map[] else requests.value;
    if ResourceCPU in m then m else m[ResourceCPU := DefaultCPURequest]
  }

  /** Defaulting the requests twice is defaulting them once. */
  lemma CPUDefaultIdempotent(requests: Option<ResourceList>)
    ensures WithCPUDefault(Some(WithCPUDefault(requests))) == WithCPUDefault(requests)
  {
  }

  function ContainerImage(specImage: string): string {
    if specImage != "" then specImage else ActivegateImage
  }

  // ---------------------------------------------------------------------------
  // The spec and the builder

  /** The ActiveGate part of the custom resource's spec that the builder reads
      and defaults in place. */
  class ActiveGateSpec {
    var image: string
    var serviceAccountName: string
    var resources: ResourceRequirements
    var capabilities: seq<string>
    var dnsPolicy: string
    var nodeSelector: Labels
    var tolerations: seq<Toleration>
    var priorityClassName: string

    constructor (image: string, serviceAccountName: string, resources: ResourceRequirements,
                 capabilities: seq<string>, dnsPolicy: string, nodeSelector: Labels,
                 tolerations: seq<Toleration>, priorityClassName: string)
      ensures this.image == image && this.serviceAccountName == serviceAccountName
      ensures this.resources == resources && this.capabilities == capabilities
      ensures this.dnsPolicy == dnsPolicy && this.nodeSelector == nodeSelector
      ensures this.tolerations == tolerations && this.priorityClassName == priorityClassName
    {
      this.image := image;
      this.serviceAccountName := serviceAccountName;
      this.resources := resources;
      this.capabilities := capabilities;
      this.dnsPolicy := dnsPolicy;
      this.nodeSelector := nodeSelector;
      this.tolerations := tolerations;
      this.priorityClassName := priorityClassName;
    }
  }

  /** BuildActiveGatePodSpecs. It replaces a non-empty service account name in
      the spec by the monitoring account, defaults the CPU request in the spec,
      and builds a pod of one ActiveGate container that always runs under the
      monitoring account. */
  method BuildActiveGatePodSpecs(spec: ActiveGateSpec, tenantInfo: Option<TenantInfo>) returns (pod: PodSpec)
    modifies spec
    ensures spec.serviceAccountName == (if old(spec.serviceAccountName) != "" then MonitoringServiceAccount else "")
    ensures spec.resources == ResourceRequirements(old(spec.resources.limits), Some(WithCPUDefault(old(spec.resources.requests))))
    ensures spec.image == old(spec.image) && spec.capabilities == old(spec.capabilities)
    ensures spec.dnsPolicy == old(spec.dnsPolicy) && spec.nodeSelector == old(spec.nodeSelector)
    ensures spec.tolerations == old(spec.tolerations) && spec.priorityClassName == old(spec.priorityClassName)
    ensures pod.serviceAccountName == MonitoringServiceAccount
    ensures |pod.containers| == 1
    ensures pod.containers[0] == Container(ActivegateName, ContainerImage(spec.image), spec.resources, PullAlways,
                                           BuildEnvVars(spec.capabilities, if tenantInfo.Some? then tenantInfo.value else EmptyTenant),
                                           BuildArgs())
    ensures pod.affinity == BuildAffinity()
    ensures pod.dnsPolicy == spec.dnsPolicy && pod.nodeSelector == spec.nodeSelector
    ensures pod.tolerations == spec.tolerations && pod.priorityClassName == spec.priorityClassName
  {
    var sa := MonitoringServiceAccount;
    var image := ActivegateImage;
    if spec.serviceAccountName != "" {
      spec.serviceAccountName := sa;
    }
    if spec.image != "" {
      image := spec.image;
    }
    var tenant := if tenantInfo.None? then TenantInfo("", "", [], "") else tenantInfo.value;

    var requests := spec.resources.requests;
    if requests.None? {
      requests := Some(map[]);
      spec.resources := spec.resources.(requests := requests);
    }
    if ResourceCPU !in requests.value {
      spec.resources := spec.resources.(requests := Some(requests.value[ResourceCPU := Quantity(1, -1)]));
    }

    var container := Container(ActivegateName, image, spec.resources, PullAlways,
                               BuildEnvVars(spec.capabilities, tenant), BuildArgs());
    pod := PodSpec([container], spec.dnsPolicy, spec.nodeSelector, sa, BuildAffinity(),
                   spec.tolerations, spec.priorityClassName);
  }

  /** Without tenant info the tenant, token and server variables are empty. */
  lemma NilTenantGivesEmptyValues(capabilities: seq<string>)
    ensures var env := BuildEnvVars(capabilities, EmptyTenant);
      EnvValue(env, DtTenant) == Some("") && EnvValue(env, DtToken) == Some("") && EnvValue(env, DtServer) == Some("")
  {
    EnvLookup(capabilities, EmptyTenant, DtTenant);
  }
}
