/**
 * The map bootstrap of initMaps as a plan: the configuration and the few
 * facts initMaps reads from its collaborators decide an ordered sequence of
 * open/create steps; the steps then run in plan order, and the first one
 * whose failure initMaps returns (or treats as fatal) is the last to run.
 */
module Bootstrap {
  import opened DatapathTypes

  /** An endpoint known to the endpoint manager, reduced to what initMaps reads. */
  datatype Endpoint = Endpoint(id: nat, conntrackLocal: bool)

  /** The results of the calls initMaps makes outside this core. */
  datatype BootEnv = BootEnv(
    haveLruHashMapType: bool,          // probes.NewProbeManager().GetMapTypes().HaveLruHashMapType
    possibleCPUs: nat,                 // common.GetNumPossibleCPUs
    initEndpoints: seq<Endpoint>,      // endpointManager.GetEndpoints() for the endpoint maps
    ctEndpoints: seq<Endpoint>,        // endpointManager.GetEndpoints() again, for the local conntrack maps
    outcome: MapStep -> Option<Error>) // the error a step's open/create/init call returns, if any

  /** What initMaps does with the error of a step. */
  datatype Policy =
    | Propagate   // returned at once
    | Fatal       // logged with Fatal: the agent exits
    | Ignore      // discarded
    | Infallible  // the call returns no error

  function PolicyOf(step: MapStep): Policy
  {
    match step
    case InitServiceMaps(_, _, _, _) => Fatal
    case InitEndpointMap(_) => Ignore
    case DeleteAllLxcEntries => Ignore
    case SetIPCacheListeners => Infallible
    case RegisterController(_, _) => Infallible
    case _ => Propagate
  }

  /** The record of running one step. */
  function Attempt(step: MapStep, env: BootEnv): (e: Event)
    ensures e.MapStepRan? && e.step == step
    ensures PolicyOf(step) == Infallible ==> e.failure == None
  {
    MapStepRan(step, if PolicyOf(step) == Infallible then None else env.outcome(step))
  }

  /** A step after which initMaps runs nothing more. */
  predicate Halts(step: MapStep, env: BootEnv)
  {
    (PolicyOf(step) == Propagate || PolicyOf(step) == Fatal) && env.outcome(step).Some?
  }

  /** How initMaps ends: it returns nil, it returns an error, or the agent exits. */
  datatype InitResult = Completed | Failed(error: Error) | Aborted(error: Error)

  function Verdict(step: MapStep, env: BootEnv): InitResult
    requires Halts(step, env)
  {
    if PolicyOf(step) == Fatal then Aborted(env.outcome(step).value) else Failed(env.outcome(step).value)
  }

  /** What a run of the plan records, and how it ends. */
  datatype Run = Run(events: seq<Event>, result: InitResult)

  /** Running a plan: each step in turn, stopping after the first one that halts. */
  function Exec(plan: seq<MapStep>, env: BootEnv): Run
  {
    if plan == [] then Run([], Completed)
    else
      var r := Exec(plan[..|plan| - 1], env);
      var step := plan[|plan| - 1];
      if !r.result.Completed? then r
      else Run(r.events + [Attempt(step, env)], if Halts(step, env) then Verdict(step, env) else Completed)
  }

  /** Once a prefix of the plan has halted, the rest of the plan changes nothing. */
  lemma {:induction false} ExecHalted(plan: seq<MapStep>, k: nat, env: BootEnv)
    requires k <= |plan|
    requires !Exec(plan[..k], env).result.Completed?
    ensures Exec(plan, env) == Exec(plan[..k], env)
  {
    if k < |plan| {
      assert plan[..|plan| - 1][..k] == plan[..k];
      ExecHalted(plan[..|plan| - 1], k, env);
    } else {
      assert plan[..k] == plan;
    }
  }

  /** Reference definition: the position of the first step that halts. */
  function FirstHalting(plan: seq<MapStep>, env: BootEnv): (r: Option<nat>)
    ensures r.Some? ==> r.value < |plan| && Halts(plan[r.value], env)
    ensures forall i :: 0 <= i < |plan| && (r.None? || i < r.value) ==> !Halts(plan[i], env)
  {
    if plan == [] then None
    else if Halts(plan[0], env) then Some(0)
    else match FirstHalting(plan[1..], env)
      case None => None
      case Some(j) => Some(j + 1)
  }

  lemma {:induction false} FirstHaltingAppend(plan: seq<MapStep>, env: BootEnv)
    requires plan != []
    ensures var init := plan[..|plan| - 1];
      FirstHalting(plan, env) ==
        if FirstHalting(init, env).Some? then FirstHalting(init, env)
        else if Halts(plan[|plan| - 1], env) then Some(|plan| - 1)
        else None
  {
    var init := plan[..|plan| - 1];
    var f, g := FirstHalting(plan, env), FirstHalting(init, env);
    if g.Some? {
      assert plan[g.value] == init[g.value];
      assert forall i :: 0 <= i < g.value ==> plan[i] == init[i];
    }
  }

  /**
   * A run executes the plan's steps in plan order, up to and including the
   * first that halts, and records nothing else; it ends with that step's
   * verdict, or completes when no step halts.
   */
  lemma {:induction false} ExecFirstHalting(plan: seq<MapStep>, env: BootEnv)
    ensures var r := Exec(plan, env);
      var first := FirstHalting(plan, env);
      var n := if first.Some? then first.value + 1 else |plan|;
      && |r.events| == n
      && (forall i :: 0 <= i < n ==> r.events[i] == Attempt(plan[i], env))
      && r.result == (if first.Some? then Verdict(plan[first.value], env) else Completed)
  {
    if plan != [] {
      var init, last := plan[..|plan| - 1], plan[|plan| - 1];
      ExecFirstHalting(init, env);
      FirstHaltingAppend(plan, env);
      var r0, g := Exec(init, env), FirstHalting(init, env);
      if g.None? {
        assert Exec(plan, env).events == r0.events + [Attempt(last, env)];
        assert forall i :: 0 <= i < |init| ==> plan[i] == init[i];
      } else {
        assert plan[..|init|] == init;
        ExecHalted(plan, |init|, env);
        assert forall i :: 0 <= i <= g.value ==> plan[i] == init[i];
      }
    }
  }

  /** Every event of a run is the attempt of a step of the plan. */
  lemma ExecRunsPlanSteps(plan: seq<MapStep>, env: BootEnv)
    ensures forall e :: e in Exec(plan, env).events ==> e.MapStepRan? && e.step in plan && e == Attempt(e.step, env)
  {
    ExecFirstHalting(plan, env);
    var r := Exec(plan, env);
    forall e | e in r.events
      ensures e.MapStepRan? && e.step in plan && e == Attempt(e.step, env)
    {
      var i :| 0 <= i < |r.events| && r.events[i] == e;
      assert r.events[i] == Attempt(plan[i], env);
    }
  }

  predicate FamilyEnabled(cfg: Config, f: Family)
  {
    match f
    case IPv4 => cfg.enableIPv4
    case IPv6 => cfg.enableIPv6
  }

  /** The connection-tracking maps of one scope: TCP then any-protocol, IPv4 then IPv6. */
  function CtMaps(scope: CtScope, ipv4: bool, ipv6: bool): seq<MapStep>
  {
    (if ipv4 then [CreateCtMap(scope, IPv4, CtTCP), CreateCtMap(scope, IPv4, CtAny)] else [])
    + (if ipv6 then [CreateCtMap(scope, IPv6, CtTCP), CreateCtMap(scope, IPv6, CtAny)] else [])
  }

  lemma CtMapsMembers(scope: CtScope, ipv4: bool, ipv6: bool)
    ensures forall s: MapStep :: s in CtMaps(scope, ipv4, ipv6) <==>
      s.CreateCtMap? && s.scope == scope && (if s.family == IPv4 then ipv4 else ipv6)
  {
    forall s: MapStep | s.CreateCtMap? && s.scope == scope && (if s.family == IPv4 then ipv4 else ipv6)
      ensures s in CtMaps(scope, ipv4, ipv6)
    {
      var a := if ipv4 then [CreateCtMap(scope, IPv4, CtTCP), CreateCtMap(scope, IPv4, CtAny)] else [];
      var b := if ipv6 then [CreateCtMap(scope, IPv6, CtTCP), CreateCtMap(scope, IPv6, CtAny)] else [];
      var i := if s.kind == CtTCP then 0 else 1;
      if s.family == IPv4 {
        assert s == a[i];
      } else {
        assert s == b[i];
      }
    }
  }

  /** ep.InitMap() for every endpoint, in the manager's order. */
  function EndpointSteps(eps: seq<Endpoint>): seq<MapStep>
  {
    if eps == [] then [] else EndpointSteps(eps[..|eps| - 1]) + [InitEndpointMap(eps[|eps| - 1].id)]
  }

  lemma {:induction false} EndpointStepsMembers(eps: seq<Endpoint>)
    ensures forall s :: s in EndpointSteps(eps) <==> s.InitEndpointMap? && exists ep :: ep in eps && ep.id == s.endpointID
  {
    if eps != [] {
      var init := eps[..|eps| - 1];
      EndpointStepsMembers(init);
      assert eps == init + [eps[|eps| - 1]];
    }
  }

  /** The local connection-tracking maps of every endpoint with conntrack-local set. */
  function LocalCtSteps(eps: seq<Endpoint>, ipv4: bool, ipv6: bool): seq<MapStep>
  {
    if eps == [] then []
    else
      var ep := eps[|eps| - 1];
      LocalCtSteps(eps[..|eps| - 1], ipv4, ipv6) + (if ep.conntrackLocal then CtMaps(CtLocal(ep.id), ipv4, ipv6) else [])
  }

  lemma {:induction false} LocalCtStepsMembers(eps: seq<Endpoint>, ipv4: bool, ipv6: bool)
    ensures forall s :: s in LocalCtSteps(eps, ipv4, ipv6) <==>
      && s.CreateCtMap? && s.scope.CtLocal? && (if s.family == IPv4 then ipv4 else ipv6)
      && exists ep :: ep in eps && ep.conntrackLocal && ep.id == s.scope.endpointID
  {
    if eps != [] {
      var init, ep := eps[..|eps| - 1], eps[|eps| - 1];
      LocalCtStepsMembers(init, ipv4, ipv6);
      CtMapsMembers(CtLocal(ep.id), ipv4, ipv6);
      assert eps == init + [ep];
    }
  }

  /** nat.GlobalMaps: one NAT map per enabled family, only with NodePort enabled. */
  function NatSteps(cfg: Config): seq<MapStep>
  {
    When(cfg.enableIPv4 && cfg.enableNodePort, CreateNatMap(IPv4))
    + When(cfg.enableIPv6 && cfg.enableNodePort, CreateNatMap(IPv6))
  }

  /** Whether the socket reverse-NAT maps are created. */
  predicate SockRevNat(cfg: Config, env: BootEnv)
  {
    cfg.enableHostReachableServices && cfg.enableHostServicesUDP && env.haveLruHashMapType
  }

  const MetricsSyncController: string := "metricsmap-bpf-prom-sync"
  const MetricsSyncIntervalSeconds: nat := 5

  /** The steps from the metrics map to the policy call map, which run whatever the configuration. */
  function CoreSteps(cfg: Config, env: BootEnv): seq<MapStep>
  {
    [OpenMetricsMap, OpenTunnelMap, OpenEgressMap,
     InitServiceMaps(cfg.enableIPv6, cfg.enableIPv4, SockRevNat(cfg, env), cfg.restoreState),
     InitEventsMap(env.possibleCPUs), InitSignalMap(env.possibleCPUs), InitPolicyCallMap]
  }

  /** The per-endpoint and global maps: endpoint maps, connection tracking, NAT. */
  function EndpointAndCtSteps(cfg: Config, env: BootEnv): seq<MapStep>
  {
    EndpointSteps(env.initEndpoints)
    + LocalCtSteps(env.ctEndpoints, cfg.enableIPv4, cfg.enableIPv6)
    + CtMaps(CtGlobal, cfg.enableIPv4, cfg.enableIPv6)
    + NatSteps(cfg)
  }

  /** A step that runs only under a condition. */
  function When(cond: bool, step: MapStep): (r: seq<MapStep>)
    ensures forall t :: t in r <==> cond && t == step
  {
    if cond then [step] else []
  }

  /** The feature-dependent steps after NAT, in the order initMaps runs them. */
  function FeatureSteps(cfg: Config): seq<MapStep>
  {
    NodePortExtraSteps(cfg) + HousekeepingSteps(cfg) + LbSteps(cfg)
  }

  /** Neighbor maps (with NodePort) and the IPv4 fragments map. */
  function NodePortExtraSteps(cfg: Config): seq<MapStep>
  {
    When(cfg.enableNodePort, InitNeighborsMaps(cfg.enableIPv4, cfg.enableIPv6))
    + When(cfg.enableIPv4FragmentsTracking, InitFragmentsMap(cfg.fragmentsMapEntries))
  }

  /** The listeners, the masquerading map, the metrics controller and the endpoint-map wipe. */
  function HousekeepingSteps(cfg: Config): seq<MapStep>
  {
    [SetIPCacheListeners]
    + When(cfg.enableIPv4 && cfg.enableIPMasqAgent, OpenIPMasq4Map)
    + [RegisterController(MetricsSyncController, MetricsSyncIntervalSeconds)]
    + When(!cfg.restoreState, DeleteAllLxcEntries)
  }

  /** Session affinity, source-range check and Maglev maps. */
  function LbSteps(cfg: Config): seq<MapStep>
  {
    AffinitySteps(cfg) + SourceRangeSteps(cfg)
    + When(cfg.nodePortAlg == NodePortAlgMaglev,
           InitMaglevMaps(cfg.enableIPv4, cfg.enableIPv6, ToUint32(cfg.maglevTableSize)))
  }

  /** The affinity maps, opened only with session affinity enabled. */
  function AffinitySteps(cfg: Config): seq<MapStep>
  {
    When(cfg.enableSessionAffinity, OpenAffinityMatchMap)
    + When(cfg.enableSessionAffinity && cfg.enableIPv4, OpenAffinityMap(IPv4))
    + When(cfg.enableSessionAffinity && cfg.enableIPv6, OpenAffinityMap(IPv6))
  }

  /** The source-range maps, opened only with the source-range check enabled. */
  function SourceRangeSteps(cfg: Config): seq<MapStep>
  {
    When(cfg.enableSVCSourceRangeCheck && cfg.enableIPv4, OpenSourceRangeMap(IPv4))
    + When(cfg.enableSVCSourceRangeCheck && cfg.enableIPv6, OpenSourceRangeMap(IPv6))
  }

  /** The stages of initMaps outside dry mode, in the order it runs them. */
  function Stages(cfg: Config, env: BootEnv): seq<seq<MapStep>>
  {
    [[OpenLxcMap, OpenIPCacheParallel], CoreSteps(cfg, env), EndpointAndCtSteps(cfg, env), FeatureSteps(cfg)]
  }

  /** The steps of the stages, one stage after the other. */
  function Flatten(parts: seq<seq<MapStep>>): seq<MapStep>
  {
    if parts == [] then [] else parts[0] + Flatten(parts[1..])
  }

  lemma {:induction false} FlattenMembers(parts: seq<seq<MapStep>>, s: MapStep)
    ensures s in Flatten(parts) <==> exists i :: 0 <= i < |parts| && s in parts[i]
  {
    if parts != [] {
      FlattenMembers(parts[1..], s);
      if s in Flatten(parts[1..]) {
        var i :| 0 <= i < |parts[1..]| && s in parts[1..][i];
        assert s in parts[i + 1];
      }
      if exists i :: 0 <= i < |parts| && s in parts[i] {
        var i :| 0 <= i < |parts| && s in parts[i];
        if i > 0 {
          assert s in parts[1..][i - 1];
        }
      }
    }
  }

  /** The steps initMaps runs outside dry mode, in order. */
  function InitPlan(cfg: Config, env: BootEnv): seq<MapStep>
  {
    Flatten(Stages(cfg, env))
  }

  /** initMaps as a whole: dry mode runs nothing and returns nil. */
  function InitRun(cfg: Config, env: BootEnv): Run
  {
    if cfg.dryMode then Run([], Completed) else Exec(InitPlan(cfg, env), env)
  }

  /** The per-endpoint and global part plans endpoint maps, connection-tracking maps and NAT maps only. */
  lemma EndpointAndCtKinds(cfg: Config, env: BootEnv)
    ensures forall s :: s in EndpointAndCtSteps(cfg, env) ==> s.InitEndpointMap? || s.CreateCtMap? || s.CreateNatMap?
  {
    EndpointStepsMembers(env.initEndpoints);
    LocalCtStepsMembers(env.ctEndpoints, cfg.enableIPv4, cfg.enableIPv6);
    CtMapsMembers(CtGlobal, cfg.enableIPv4, cfg.enableIPv6);
  }

  lemma EndpointAndCtExcludes(cfg: Config, env: BootEnv, s: MapStep)
    requires !s.InitEndpointMap? && !s.CreateCtMap? && !s.CreateNatMap?
    ensures s !in EndpointAndCtSteps(cfg, env)
  {
    EndpointAndCtKinds(cfg, env);
  }

  /** A step is in the plan exactly when it is in one of its parts. */
  lemma PlanParts(cfg: Config, env: BootEnv, s: MapStep)
    ensures s in InitPlan(cfg, env) <==>
      s == OpenLxcMap || s == OpenIPCacheParallel || s in CoreSteps(cfg, env)
      || s in EndpointAndCtSteps(cfg, env) || s in FeatureSteps(cfg)
  {
    var st := Stages(cfg, env);
    FlattenMembers(st, s);
    if exists i :: 0 <= i < |st| && s in st[i] {
      var i :| 0 <= i < |st| && s in st[i];
      assert i == 0 || i == 1 || i == 2 || i == 3;
    }
    if s == OpenLxcMap || s == OpenIPCacheParallel { assert s in st[0]; }
    if s in CoreSteps(cfg, env) { assert s in st[1]; }
    if s in EndpointAndCtSteps(cfg, env) { assert s in st[2]; }
    if s in FeatureSteps(cfg) { assert s in st[3]; }
  }

  lemma NatStepsMembers(cfg: Config, env: BootEnv, f: Family)
    ensures CreateNatMap(f) in EndpointAndCtSteps(cfg, env) <==> cfg.enableNodePort && FamilyEnabled(cfg, f)
  {
    EndpointStepsMembers(env.initEndpoints);
    LocalCtStepsMembers(env.ctEndpoints, cfg.enableIPv4, cfg.enableIPv6);
    CtMapsMembers(CtGlobal, cfg.enableIPv4, cfg.enableIPv6);
  }

  /**
   * Reference definition of the feature-dependent part: the condition under
   * which each step appears in it, with the arguments initMaps passes.
   */
  predicate FeaturePlanned(cfg: Config, t: MapStep)
  {
    match t
    case InitNeighborsMaps(v4, v6) => cfg.enableNodePort && v4 == cfg.enableIPv4 && v6 == cfg.enableIPv6
    case InitFragmentsMap(n) => cfg.enableIPv4FragmentsTracking && n == cfg.fragmentsMapEntries
    case SetIPCacheListeners => true
    case OpenIPMasq4Map => cfg.enableIPv4 && cfg.enableIPMasqAgent
    case RegisterController(name, interval) => name == MetricsSyncController && interval == MetricsSyncIntervalSeconds
    case DeleteAllLxcEntries => !cfg.restoreState
    case OpenAffinityMatchMap => cfg.enableSessionAffinity
    case OpenAffinityMap(f) => cfg.enableSessionAffinity && FamilyEnabled(cfg, f)
    case OpenSourceRangeMap(f) => cfg.enableSVCSourceRangeCheck && FamilyEnabled(cfg, f)
    case InitMaglevMaps(v4, v6, size) =>
      cfg.nodePortAlg == NodePortAlgMaglev && v4 == cfg.enableIPv4 && v6 == cfg.enableIPv6
      && size == ToUint32(cfg.maglevTableSize)
    case _ => false
  }

  lemma NodePortExtraStepsExact(cfg: Config, t: MapStep)
    ensures t in NodePortExtraSteps(cfg) <==> FeaturePlanned(cfg, t) && (t.InitNeighborsMaps? || t.InitFragmentsMap?)
  {
  }

  lemma HousekeepingStepsExact(cfg: Config, t: MapStep)
    ensures t in HousekeepingSteps(cfg) <==> (FeaturePlanned(cfg, t) &&
      (t.SetIPCacheListeners? || t.OpenIPMasq4Map? || t.RegisterController? || t.DeleteAllLxcEntries?))
  {
    var r := [RegisterController(MetricsSyncController, MetricsSyncIntervalSeconds)];
    assert t in r <==> t.RegisterController? && FeaturePlanned(cfg, t);
  }

  lemma AffinityStepsExact(cfg: Config, t: MapStep)
    ensures t in AffinitySteps(cfg) <==> FeaturePlanned(cfg, t) && (t.OpenAffinityMatchMap? || t.OpenAffinityMap?)
  {
    if t.OpenAffinityMap? {
      assert t.family == IPv4 || t.family == IPv6;
    }
  }

  lemma SourceRangeStepsExact(cfg: Config, t: MapStep)
    ensures t in SourceRangeSteps(cfg) <==> FeaturePlanned(cfg, t) && t.OpenSourceRangeMap?
  {
    if t.OpenSourceRangeMap? {
      assert t.family == IPv4 || t.family == IPv6;
    }
  }

  lemma LbStepsExact(cfg: Config, t: MapStep)
    ensures t in LbSteps(cfg) <==> (FeaturePlanned(cfg, t) &&
      (t.OpenAffinityMatchMap? || t.OpenAffinityMap? || t.OpenSourceRangeMap? || t.InitMaglevMaps?))
  {
    AffinityStepsExact(cfg, t);
    SourceRangeStepsExact(cfg, t);
  }

  /** The feature-dependent part plans exactly the steps its reference definition admits. */
  lemma FeatureStepsExact(cfg: Config, t: MapStep)
    ensures t in FeatureSteps(cfg) <==> FeaturePlanned(cfg, t)
  {
    NodePortExtraStepsExact(cfg, t);
    HousekeepingStepsExact(cfg, t);
    LbStepsExact(cfg, t);
  }

  /** A step of the feature-dependent part: not among the first steps, the core steps, or the endpoint, conntrack and NAT maps. */
  predicate FeatureKind(s: MapStep)
  {
    !(|| s.OpenLxcMap? || s.OpenIPCacheParallel? || s.OpenMetricsMap? || s.OpenTunnelMap? || s.OpenEgressMap?
      || s.InitServiceMaps? || s.InitEventsMap? || s.InitSignalMap? || s.InitPolicyCallMap?
      || s.InitEndpointMap? || s.CreateCtMap? || s.CreateNatMap?)
  }

  /** A step of another kind is not in the feature-dependent part. */
  lemma FeatureExcludes(cfg: Config, s: MapStep)
    requires !FeatureKind(s)
    ensures s !in FeatureSteps(cfg)
  {
    FeatureStepsExact(cfg, s);
  }

  /** A feature-kind step is in the plan exactly when the feature-dependent reference definition admits it. */
  lemma PlanFeatureStep(cfg: Config, env: BootEnv, s: MapStep)
    requires FeatureKind(s)
    ensures s in InitPlan(cfg, env) <==> FeaturePlanned(cfg, s)
  {
    PlanParts(cfg, env, s);
    EndpointAndCtExcludes(cfg, env, s);
    FeatureStepsExact(cfg, s);
  }

  /** The service maps are always initialised, with the families, the socket reverse-NAT decision and the restore flag. */
  lemma PlanServiceMaps(cfg: Config, env: BootEnv)
    ensures forall v6, v4, sockRevNat, restore :: InitServiceMaps(v6, v4, sockRevNat, restore) in InitPlan(cfg, env) <==>
      v6 == cfg.enableIPv6 && v4 == cfg.enableIPv4 && restore == cfg.restoreState
      && sockRevNat == (cfg.enableHostReachableServices && cfg.enableHostServicesUDP && env.haveLruHashMapType)
  {
    forall v6, v4, sockRevNat, restore
      ensures InitServiceMaps(v6, v4, sockRevNat, restore) in InitPlan(cfg, env) <==>
        v6 == cfg.enableIPv6 && v4 == cfg.enableIPv4 && restore == cfg.restoreState
        && sockRevNat == (cfg.enableHostReachableServices && cfg.enableHostServicesUDP && env.haveLruHashMapType)
    {
      PlanParts(cfg, env, InitServiceMaps(v6, v4, sockRevNat, restore));
      EndpointAndCtExcludes(cfg, env, InitServiceMaps(v6, v4, sockRevNat, restore));
      FeatureExcludes(cfg, InitServiceMaps(v6, v4, sockRevNat, restore));
    }
  }

  /** NAT maps: one per enabled family, and only with NodePort enabled. */
  lemma PlanNatMaps(cfg: Config, env: BootEnv)
    ensures forall f :: CreateNatMap(f) in InitPlan(cfg, env) <==> cfg.enableNodePort && FamilyEnabled(cfg, f)
  {
    forall f
      ensures CreateNatMap(f) in InitPlan(cfg, env) <==> cfg.enableNodePort && FamilyEnabled(cfg, f)
    {
      PlanParts(cfg, env, CreateNatMap(f));
      NatStepsMembers(cfg, env, f);
      FeatureExcludes(cfg, CreateNatMap(f));
    }
  }

  /** The neighbor maps only with NodePort, the fragments map only with fragment tracking, each with the configured arguments. */
  lemma PlanNodePortExtras(cfg: Config, env: BootEnv)
    ensures forall v4, v6 :: InitNeighborsMaps(v4, v6) in InitPlan(cfg, env) <==>
      cfg.enableNodePort && v4 == cfg.enableIPv4 && v6 == cfg.enableIPv6
    ensures forall n :: InitFragmentsMap(n) in InitPlan(cfg, env) <==>
      cfg.enableIPv4FragmentsTracking && n == cfg.fragmentsMapEntries
  {
    forall v4, v6
      ensures InitNeighborsMaps(v4, v6) in InitPlan(cfg, env) <==>
        cfg.enableNodePort && v4 == cfg.enableIPv4 && v6 == cfg.enableIPv6
    {
      PlanFeatureStep(cfg, env, InitNeighborsMaps(v4, v6));
    }
    forall n
      ensures InitFragmentsMap(n) in InitPlan(cfg, env) <==>
        cfg.enableIPv4FragmentsTracking && n == cfg.fragmentsMapEntries
    {
      PlanFeatureStep(cfg, env, InitFragmentsMap(n));
    }
  }

  /** The ipcache listeners are always set and the metrics controller always registered. */
  lemma PlanListenersAndController(cfg: Config, env: BootEnv)
    ensures SetIPCacheListeners in InitPlan(cfg, env)
    ensures RegisterController(MetricsSyncController, MetricsSyncIntervalSeconds) in InitPlan(cfg, env)
  {
    PlanFeatureStep(cfg, env, SetIPCacheListeners);
    PlanFeatureStep(cfg, env, RegisterController(MetricsSyncController, MetricsSyncIntervalSeconds));
  }

  /**
   * The IPv4 masquerading map is opened only with IPv4 and the masquerading
   * agent; the endpoint map is wiped only when state is not restored.
   */
  lemma PlanMasqAndWipe(cfg: Config, env: BootEnv)
    ensures OpenIPMasq4Map in InitPlan(cfg, env) <==> cfg.enableIPv4 && cfg.enableIPMasqAgent
    ensures DeleteAllLxcEntries in InitPlan(cfg, env) <==> !cfg.restoreState
  {
    PlanFeatureStep(cfg, env, OpenIPMasq4Map);
    PlanFeatureStep(cfg, env, DeleteAllLxcEntries);
  }

  /** The affinity maps only with session affinity enabled, one per enabled family besides the match map. */
  lemma PlanAffinityMaps(cfg: Config, env: BootEnv)
    ensures OpenAffinityMatchMap in InitPlan(cfg, env) <==> cfg.enableSessionAffinity
    ensures forall f :: OpenAffinityMap(f) in InitPlan(cfg, env) <==> cfg.enableSessionAffinity && FamilyEnabled(cfg, f)
  {
    PlanFeatureStep(cfg, env, OpenAffinityMatchMap);
    forall f
      ensures OpenAffinityMap(f) in InitPlan(cfg, env) <==> cfg.enableSessionAffinity && FamilyEnabled(cfg, f)
    {
      PlanFeatureStep(cfg, env, OpenAffinityMap(f));
    }
  }

  /** The source-range maps only with the source-range check enabled, one per enabled family. */
  lemma PlanSourceRangeMaps(cfg: Config, env: BootEnv)
    ensures forall f :: OpenSourceRangeMap(f) in InitPlan(cfg, env) <==> cfg.enableSVCSourceRangeCheck && FamilyEnabled(cfg, f)
  {
    forall f
      ensures OpenSourceRangeMap(f) in InitPlan(cfg, env) <==> cfg.enableSVCSourceRangeCheck && FamilyEnabled(cfg, f)
    {
      PlanFeatureStep(cfg, env, OpenSourceRangeMap(f));
    }
  }

  /** The Maglev maps only with the Maglev algorithm, sized by the table size converted to 32 bits (see ToUint32Wraps). */
  lemma PlanMaglevMaps(cfg: Config, env: BootEnv)
    ensures forall v4, v6, size :: InitMaglevMaps(v4, v6, size) in InitPlan(cfg, env) <==>
      cfg.nodePortAlg == NodePortAlgMaglev && v4 == cfg.enableIPv4 && v6 == cfg.enableIPv6
      && size == ToUint32(cfg.maglevTableSize)
  {
    forall v4, v6, size
      ensures InitMaglevMaps(v4, v6, size) in InitPlan(cfg, env) <==>
        cfg.nodePortAlg == NodePortAlgMaglev && v4 == cfg.enableIPv4 && v6 == cfg.enableIPv6
        && size == ToUint32(cfg.maglevTableSize)
    {
      PlanFeatureStep(cfg, env, InitMaglevMaps(v4, v6, size));
    }
  }

  /**
   * The plan always starts by opening the endpoint map and then the ipcache
   * in parallel mode, and neither step appears again after that.
   */
  lemma PlanStartsWithLxcThenIPCache(cfg: Config, env: BootEnv)
    ensures var plan := InitPlan(cfg, env);
      && |plan| >= 2 && plan[0] == OpenLxcMap && plan[1] == OpenIPCacheParallel
      && OpenLxcMap !in plan[2..] && OpenIPCacheParallel !in plan[2..]
  {
    var st := Stages(cfg, env);
    var later := Flatten(st[1..]);
    assert InitPlan(cfg, env) == [OpenLxcMap, OpenIPCacheParallel] + later;
    assert InitPlan(cfg, env)[2..] == later;
    LaterStagesOpen(cfg, env, OpenLxcMap);
    LaterStagesOpen(cfg, env, OpenIPCacheParallel);
  }

  /** The stages after the first open neither the endpoint map nor the ipcache. */
  lemma LaterStagesOpen(cfg: Config, env: BootEnv, s: MapStep)
    requires s == OpenLxcMap || s == OpenIPCacheParallel
    ensures s !in Flatten(Stages(cfg, env)[1..])
  {
    var core, epct, feat := CoreSteps(cfg, env), EndpointAndCtSteps(cfg, env), FeatureSteps(cfg);
    var later := Stages(cfg, env)[1..];
    assert later == [core, epct, feat];
    EndpointAndCtExcludes(cfg, env, s);
    FeatureExcludes(cfg, s);
    forall i | 0 <= i < |later|
      ensures s !in later[i]
    {
      assert later[i] == core || later[i] == epct || later[i] == feat;
    }
    FlattenMembers(later, s);
  }

  lemma EndpointAndCtCtMap(cfg: Config, env: BootEnv, s: MapStep)
    requires s.CreateCtMap?
    ensures s in EndpointAndCtSteps(cfg, env) <==>
      FamilyEnabled(cfg, s.family) &&
      (s.scope.CtLocal? ==> exists ep :: ep in env.ctEndpoints && ep.conntrackLocal && ep.id == s.scope.endpointID)
  {
    EndpointStepsMembers(env.initEndpoints);
    LocalCtStepsMembers(env.ctEndpoints, cfg.enableIPv4, cfg.enableIPv6);
    CtMapsMembers(CtGlobal, cfg.enableIPv4, cfg.enableIPv6);
    assert s !in NatSteps(cfg);
  }

  /**
   * The connection-tracking maps planned: the global ones of each enabled
   * family, and the local ones of each enabled family for every endpoint
   * that uses local connection tracking.
   */
  lemma PlanCtMaps(cfg: Config, env: BootEnv)
    ensures forall scope, f, k :: CreateCtMap(scope, f, k) in InitPlan(cfg, env) <==>
      FamilyEnabled(cfg, f) &&
      (scope.CtLocal? ==> exists ep :: ep in env.ctEndpoints && ep.conntrackLocal && ep.id == scope.endpointID)
  {
    forall scope, f, k
      ensures CreateCtMap(scope, f, k) in InitPlan(cfg, env) <==>
        FamilyEnabled(cfg, f) &&
        (scope.CtLocal? ==> exists ep :: ep in env.ctEndpoints && ep.conntrackLocal && ep.id == scope.endpointID)
    {
      PlanParts(cfg, env, CreateCtMap(scope, f, k));
      FeatureExcludes(cfg, CreateCtMap(scope, f, k));
      EndpointAndCtCtMap(cfg, env, CreateCtMap(scope, f, k));
    }
  }

  /** Dry mode runs no step and returns nil. */
  lemma InitDry(cfg: Config, env: BootEnv)
    requires cfg.dryMode
    ensures InitRun(cfg, env) == Run([], Completed)
  {
  }

  /**
   * The ipcache is never opened unless the endpoint map was opened first and
   * without error; both are the first two steps of every run that is not dry.
   */
  lemma InitOpensLxcBeforeIPCache(cfg: Config, env: BootEnv)
    requires !cfg.dryMode
    ensures var r := InitRun(cfg, env);
      && |r.events| >= 1 && r.events[0] == Attempt(OpenLxcMap, env)
      && (forall f :: MapStepRan(OpenIPCacheParallel, f) in r.events ==>
            r.events[1] == MapStepRan(OpenIPCacheParallel, f) && env.outcome(OpenLxcMap).None?)
  {
    PlanStartsWithLxcThenIPCache(cfg, env);
    ExecOpensInOrder(InitPlan(cfg, env), env);
  }

  /** In a plan that opens the endpoint map, then the ipcache, the ipcache opens only after the endpoint map opened. */
  lemma ExecOpensInOrder(plan: seq<MapStep>, env: BootEnv)
    requires |plan| >= 2 && plan[0] == OpenLxcMap && plan[1] == OpenIPCacheParallel && OpenIPCacheParallel !in plan[2..]
    ensures var r := Exec(plan, env);
      && |r.events| >= 1 && r.events[0] == Attempt(OpenLxcMap, env)
      && (forall f :: MapStepRan(OpenIPCacheParallel, f) in r.events ==>
            r.events[1] == MapStepRan(OpenIPCacheParallel, f) && env.outcome(OpenLxcMap).None?)
  {
    ExecFirstHalting(plan, env);
    var r := Exec(plan, env);
    var first := FirstHalting(plan, env);
    forall f | MapStepRan(OpenIPCacheParallel, f) in r.events
      ensures r.events[1] == MapStepRan(OpenIPCacheParallel, f) && env.outcome(OpenLxcMap).None?
    {
      var i :| 0 <= i < |r.events| && r.events[i] == MapStepRan(OpenIPCacheParallel, f);
      assert r.events[i] == Attempt(plan[i], env);
      assert first.None? || first.value >= 1;
    }
  }

  /**
   * A step runs only if it is planned; and every planned step runs when no
   * step halts, so the plan lemmas describe a successful run.
   */
  lemma ExecRunsPlanned(plan: seq<MapStep>, env: BootEnv, s: MapStep)
    ensures (exists f :: MapStepRan(s, f) in Exec(plan, env).events) ==> s in plan
    ensures s in plan && FirstHalting(plan, env).None? ==> Attempt(s, env) in Exec(plan, env).events
  {
    var r := Exec(plan, env);
    ExecRunsPlanSteps(plan, env);
    ExecFirstHalting(plan, env);
    if s in plan && FirstHalting(plan, env).None? {
      var i :| 0 <= i < |plan| && plan[i] == s;
      assert r.events[i] == Attempt(s, env);
    }
  }

  /**
   * A failing step that initMaps propagates or treats as fatal is the last
   * one it runs; the service maps' failure ends the agent rather than
   * returning; the errors of endpoint map initialisation and of the
   * endpoint-map wipe never stop the run.
   */
  lemma ExecFailure(plan: seq<MapStep>, env: BootEnv)
    ensures var r := Exec(plan, env);
      var first := FirstHalting(plan, env);
      && (first.None? <==> r.result == Completed)
      && (first.Some? ==>
            && |r.events| == first.value + 1
            && r.events[first.value] == Attempt(plan[first.value], env)
            && (r.result.Aborted? <==> plan[first.value].InitServiceMaps?)
            && !plan[first.value].InitEndpointMap? && !plan[first.value].DeleteAllLxcEntries?)
  {
    ExecFirstHalting(plan, env);
  }
}
