/**
 * The reconciliation of syncEndpointsAndHostIPs, as functions of its inputs:
 * the upsert pass over the special pairs (which removes each pair's key from
 * the endpoint-map snapshot and carries the k8s metadata from pair to pair),
 * the eviction of the stale host entries left in the snapshot, and the whole
 * run. The lemmas state what the run does to the endpoint map and the
 * identity cache.
 */
module EndpointSync {
  import opened DatapathTypes
  import opened SpecialIdentities

  /** The results of the calls syncEndpointsAndHostIPs makes outside this core. */
  datatype SyncEnv = SyncEnv(
    ipv4: LocalAddresses,                       // LocalNodeAddressing().IPv4().LocalAddresses()
    ipv6: LocalAddresses,                       // LocalNodeAddressing().IPv6().LocalAddresses()
    ipv6Router: IP,                             // node.GetIPv6Router()
    dump: Result<map<string, EndpointInfo>>,    // lxcmap.DumpToMap()
    syncHostEntry: IP -> Result<bool>,          // lxcmap.SyncHostEntry(ip)
    deleteEntry: IP -> Option<Error>,           // lxcmap.DeleteEntry(ip)
    k8sMetadata: string -> Option<K8sMetadata>, // IPIdentityCache.GetK8sMetadata(key)
    ipString: IP -> string,                     // IP.String()
    parseIP: string -> Option<IP>)              // net.ParseIP(s); None for nil

  function SpecialOf(cfg: Config, env: SyncEnv): seq<IPIdentityPair>
  {
    Special(cfg, env.ipv4, env.ipv6, env.ipv6Router)
  }

  /** The endpoint-map keys the pass reconciles: the textual form of each pair's address. */
  function Keys(pairs: seq<IPIdentityPair>, env: SyncEnv): set<string>
  {
    set p | p in pairs :: env.ipString(p.ip)
  }

  /** The upsert of one pair into the identity cache, with source Local. */
  function Upsert(p: IPIdentityPair, hostKey: uint8, meta: Option<K8sMetadata>): Event
  {
    CacheUpsert(p, hostKey, meta, CacheIdentity(p.id, Local))
  }

  /** The state of the upsert pass: events so far, the snapshot, the loop-carried metadata, a failure. */
  datatype Pass = Pass(events: seq<Event>, remaining: map<string, EndpointInfo>,
                       meta: Option<K8sMetadata>, failure: Option<Error>)

  /** One iteration of the upsert loop. */
  function Visit(ph: Pass, p: IPIdentityPair, hostKey: uint8, external: bool, env: SyncEnv): Pass
  {
    var key := env.ipString(p.ip);
    if p.id == ReservedIdentityHost then
      var synced := env.syncHostEntry(p.ip);
      if synced.Err? then
        Pass(ph.events + [LxcSyncHostEntry(p.ip, synced)], ph.remaining, ph.meta,
             Some(HostEntryFailed(synced.error)))
      else
        var meta := if external then env.k8sMetadata(key) else ph.meta;
        Pass(ph.events + [LxcSyncHostEntry(p.ip, synced), Upsert(p, hostKey, meta)],
             ph.remaining - {key}, meta, None)
    else
      Pass(ph.events + [Upsert(p, hostKey, ph.meta)], ph.remaining - {key}, ph.meta, None)
  }

  /** The upsert pass over `pairs`, starting from the dumped endpoint map; it stops at the first failure. */
  function Reconcile(pairs: seq<IPIdentityPair>, dumped: map<string, EndpointInfo>,
                     hostKey: uint8, external: bool, env: SyncEnv): Pass
  {
    if pairs == [] then Pass([], dumped, None, None)
    else
      var ph := Reconcile(pairs[..|pairs| - 1], dumped, hostKey, external, env);
      if ph.failure.Some? then ph else Visit(ph, pairs[|pairs| - 1], hostKey, external, env)
  }

  /** A host pair whose SyncHostEntry fails. */
  predicate SyncFails(p: IPIdentityPair, env: SyncEnv)
  {
    p.id == ReservedIdentityHost && env.syncHostEntry(p.ip).Err?
  }

  /** Reference definition: the position of the first host pair whose SyncHostEntry fails. */
  function FirstFailedHost(pairs: seq<IPIdentityPair>, env: SyncEnv): (r: Option<nat>)
    ensures r.Some? ==> r.value < |pairs| && SyncFails(pairs[r.value], env)
    ensures forall i :: 0 <= i < |pairs| && (r.None? || i < r.value) ==> !SyncFails(pairs[i], env)
  {
    if pairs == [] then None
    else if SyncFails(pairs[0], env) then Some(0)
    else match FirstFailedHost(pairs[1..], env)
      case None => None
      case Some(j) => Some(j + 1)
  }

  /** Reference definition: the position of the last host pair. */
  function LastHost(pairs: seq<IPIdentityPair>): (r: Option<nat>)
    ensures r.Some? ==> r.value < |pairs| && pairs[r.value].id == ReservedIdentityHost
    ensures forall i :: 0 <= i < |pairs| && (r.None? || r.value < i) ==> pairs[i].id != ReservedIdentityHost
  {
    if pairs == [] then None
    else if pairs[|pairs| - 1].id == ReservedIdentityHost then Some(|pairs| - 1)
    else LastHost(pairs[..|pairs| - 1])
  }

  /**
   * The metadata the upsert of the last of `pairs` carries: in external-workload
   * mode, what the cache held for the latest host pair so far (a world pair
   * inherits it); otherwise none.
   */
  function CarriedMeta(pairs: seq<IPIdentityPair>, external: bool, env: SyncEnv): Option<K8sMetadata>
  {
    if !external then None
    else match LastHost(pairs)
      case None => None
      case Some(k) => env.k8sMetadata(env.ipString(pairs[k].ip))
  }

  /** The identity-cache upserts of an event sequence, in order. */
  function Upserts(events: seq<Event>): seq<Event>
  {
    if events == [] then []
    else Upserts(events[..|events| - 1]) + (if events[|events| - 1].CacheUpsert? then [events[|events| - 1]] else [])
  }

  lemma {:induction false} UpsertsAppend(a: seq<Event>, b: seq<Event>)
    ensures Upserts(a + b) == Upserts(a) + Upserts(b)
  {
    if b == [] {
      assert a + b == a;
    } else {
      var init := b[..|b| - 1];
      assert a + b == (a + init) + [b[|b| - 1]];
      assert (a + b)[..|a + b| - 1] == a + init;
      UpsertsAppend(a, init);
    }
  }

  /** The endpoint-map host-entry syncs of an event sequence, in order. */
  function Syncs(events: seq<Event>): seq<Event>
  {
    if events == [] then []
    else Syncs(events[..|events| - 1]) + (if events[|events| - 1].LxcSyncHostEntry? then [events[|events| - 1]] else [])
  }

  lemma {:induction false} SyncsAppend(a: seq<Event>, b: seq<Event>)
    ensures Syncs(a + b) == Syncs(a) + Syncs(b)
  {
    if b == [] {
      assert a + b == a;
    } else {
      var init := b[..|b| - 1];
      assert a + b == (a + init) + [b[|b| - 1]];
      assert (a + b)[..|a + b| - 1] == a + init;
      SyncsAppend(a, init);
    }
  }

  /** The host-entry sync of a pair: it happens for host pairs only. */
  function HostSync(p: IPIdentityPair, env: SyncEnv): seq<Event>
  {
    if p.id == ReservedIdentityHost then [LxcSyncHostEntry(p.ip, env.syncHostEntry(p.ip))] else []
  }

  /** Reference definition: the host-entry sync of every host pair, in list order (built from the front). */
  function HostSyncs(pairs: seq<IPIdentityPair>, env: SyncEnv): seq<Event>
  {
    if pairs == [] then [] else HostSync(pairs[0], env) + HostSyncs(pairs[1..], env)
  }

  lemma {:induction false} HostSyncsAppend(pairs: seq<IPIdentityPair>, p: IPIdentityPair, env: SyncEnv)
    ensures HostSyncs(pairs + [p], env) == HostSyncs(pairs, env) + HostSync(p, env)
  {
    if pairs == [] {
      assert pairs + [p] == [p];
      assert [p][1..] == [];
    } else {
      assert (pairs + [p])[1..] == pairs[1..] + [p];
      HostSyncsAppend(pairs[1..], p, env);
    }
  }

  /** Somewhere in `ev`, the event `a` is immediately followed by the event `b`. */
  predicate InTurn(ev: seq<Event>, a: Event, b: Event)
  {
    exists i :: 0 <= i < |ev| - 1 && ev[i] == a && ev[i + 1] == b
  }

  /** A run keeps `a` right before `b` when events are added before or after it. */
  lemma InTurnExtend(pre: seq<Event>, ev: seq<Event>, post: seq<Event>, a: Event, b: Event)
    requires InTurn(ev, a, b)
    ensures InTurn(pre + ev + post, a, b)
  {
    var i :| 0 <= i < |ev| - 1 && ev[i] == a && ev[i + 1] == b;
    var all := pre + ev + post;
    assert all[|pre| + i] == a && all[|pre| + i + 1] == b;
  }

  /** Once the pass has failed on a prefix, the rest of the pairs change nothing. */
  lemma {:induction false} ReconcileHalted(pairs: seq<IPIdentityPair>, k: nat, dumped: map<string, EndpointInfo>,
                                           hostKey: uint8, external: bool, env: SyncEnv)
    requires k <= |pairs|
    requires Reconcile(pairs[..k], dumped, hostKey, external, env).failure.Some?
    ensures Reconcile(pairs, dumped, hostKey, external, env) == Reconcile(pairs[..k], dumped, hostKey, external, env)
    decreases |pairs| - k
  {
    if k < |pairs| {
      var init := pairs[..|pairs| - 1];
      assert init[..k] == pairs[..k];
      ReconcileHalted(init, k, dumped, hostKey, external, env);
    } else {
      assert pairs[..k] == pairs;
    }
  }

  /** The pass over one pair more: unchanged once it has failed, otherwise one more visit. */
  lemma ReconcileStep(pairs: seq<IPIdentityPair>, i: nat, dumped: map<string, EndpointInfo>,
                      hostKey: uint8, external: bool, env: SyncEnv)
    requires i < |pairs|
    ensures var ph := Reconcile(pairs[..i], dumped, hostKey, external, env);
      Reconcile(pairs[..i + 1], dumped, hostKey, external, env)
        == if ph.failure.Some? then ph else Visit(ph, pairs[i], hostKey, external, env)
  {
    assert pairs[..i + 1][..i] == pairs[..i];
  }

  /** FirstFailedHost of a list extended by one pair. */
  lemma FirstFailedHostAppend(pairs: seq<IPIdentityPair>, env: SyncEnv)
    requires pairs != []
    ensures var init := pairs[..|pairs| - 1];
      FirstFailedHost(pairs, env) ==
        if FirstFailedHost(init, env).Some? then FirstFailedHost(init, env)
        else if SyncFails(pairs[|pairs| - 1], env) then Some(|init|)
        else None
  {
    var init := pairs[..|pairs| - 1];
    var r, r0 := FirstFailedHost(pairs, env), FirstFailedHost(init, env);
    assert forall i :: 0 <= i < |init| ==> init[i] == pairs[i];
    if r0.Some? {
      assert r.Some? && r.value <= r0.value;
    }
  }

  /** The upsert pass fails exactly at the first host pair whose SyncHostEntry fails, with that error wrapped. */
  lemma {:induction false} ReconcileFailure(pairs: seq<IPIdentityPair>, dumped: map<string, EndpointInfo>,
                                            hostKey: uint8, external: bool, env: SyncEnv)
    ensures var first := FirstFailedHost(pairs, env);
      Reconcile(pairs, dumped, hostKey, external, env).failure ==
        if first.Some? then Some(HostEntryFailed(env.syncHostEntry(pairs[first.value].ip).error)) else None
  {
    if pairs != [] {
      var init := pairs[..|pairs| - 1];
      ReconcileFailure(init, dumped, hostKey, external, env);
      FirstFailedHostAppend(pairs, env);
      assert forall i :: 0 <= i < |init| ==> init[i] == pairs[i];
    }
  }

  /** While the pass has not failed, the carried metadata is CarriedMeta of the pairs visited. */
  lemma {:induction false} ReconcileMeta(pairs: seq<IPIdentityPair>, dumped: map<string, EndpointInfo>,
                                         hostKey: uint8, external: bool, env: SyncEnv)
    ensures var ph := Reconcile(pairs, dumped, hostKey, external, env);
      ph.failure.None? ==> ph.meta == CarriedMeta(pairs, external, env)
  {
    if pairs != [] {
      ReconcileMeta(pairs[..|pairs| - 1], dumped, hostKey, external, env);
    }
  }

  /** The upserts of one visit that does not fail. */
  lemma VisitUpserts(ph: Pass, p: IPIdentityPair, hostKey: uint8, external: bool, env: SyncEnv)
    requires !SyncFails(p, env)
    ensures var ph' := Visit(ph, p, hostKey, external, env);
      Upserts(ph'.events) == Upserts(ph.events) + [Upsert(p, hostKey, ph'.meta)]
  {
    var ph' := Visit(ph, p, hostKey, external, env);
    var tail := ph'.events[|ph.events|..];
    assert ph'.events == ph.events + tail;
    UpsertsAppend(ph.events, tail);
    if p.id == ReservedIdentityHost {
      assert Upserts(tail[..1]) == [];
    }
  }

  /** The upserts of one visit that fails: none. */
  lemma VisitFailsUpserts(ph: Pass, p: IPIdentityPair, hostKey: uint8, external: bool, env: SyncEnv)
    requires SyncFails(p, env)
    ensures var ph' := Visit(ph, p, hostKey, external, env);
      Upserts(ph'.events) == Upserts(ph.events)
  {
    var e := LxcSyncHostEntry(p.ip, env.syncHostEntry(p.ip));
    UpsertsAppend(ph.events, [e]);
    assert Upserts([e]) == Upserts([]) + [];
  }

  /** The upserts `u` are those of the first `n` pairs, in order, each with the metadata carried to it. */
  predicate UpsertsOf(u: seq<Event>, pairs: seq<IPIdentityPair>, n: nat, hostKey: uint8, external: bool, env: SyncEnv)
    requires n <= |pairs|
  {
    && |u| == n
    && forall i :: 0 <= i < n ==> u[i] == Upsert(pairs[i], hostKey, CarriedMeta(pairs[..i + 1], external, env))
  }

  /** UpsertsOf survives extending the pair list, and extending both by the next pair's upsert. */
  lemma UpsertsOfExtend(u: seq<Event>, pairs: seq<IPIdentityPair>, n: nat, hostKey: uint8, external: bool, env: SyncEnv)
    requires pairs != [] && n <= |pairs| - 1
    requires UpsertsOf(u, pairs[..|pairs| - 1], n, hostKey, external, env)
    ensures UpsertsOf(u, pairs, n, hostKey, external, env)
    ensures n == |pairs| - 1 ==>
      UpsertsOf(u + [Upsert(pairs[n], hostKey, CarriedMeta(pairs, external, env))], pairs, |pairs|, hostKey, external, env)
  {
    var init := pairs[..|pairs| - 1];
    forall i | 0 <= i < n
      ensures init[i] == pairs[i] && init[..i + 1] == pairs[..i + 1]
    {
    }
    assert pairs[..|pairs|] == pairs;
  }

  /**
   * Every pair before the first failing host pair, and every pair when none
   * fails, is upserted in list order with source Local, the node's IPsec key,
   * and the metadata carried from the latest host pair.
   */
  lemma {:induction false} ReconcileUpserts(pairs: seq<IPIdentityPair>, dumped: map<string, EndpointInfo>,
                                            hostKey: uint8, external: bool, env: SyncEnv)
    ensures var first := FirstFailedHost(pairs, env);
      UpsertsOf(Upserts(Reconcile(pairs, dumped, hostKey, external, env).events), pairs,
                if first.Some? then first.value else |pairs|, hostKey, external, env)
  {
    if pairs != [] {
      var init, last := pairs[..|pairs| - 1], pairs[|pairs| - 1];
      ReconcileUpserts(init, dumped, hostKey, external, env);
      ReconcileFailure(init, dumped, hostKey, external, env);
      FirstFailedHostAppend(pairs, env);
      var ph0 := Reconcile(init, dumped, hostKey, external, env);
      var u0 := Upserts(ph0.events);
      var first0 := FirstFailedHost(init, env);
      var n0 := if first0.Some? then first0.value else |init|;
      UpsertsOfExtend(u0, pairs, n0, hostKey, external, env);
      if first0.None? {
        if SyncFails(last, env) {
          VisitFailsUpserts(ph0, last, hostKey, external, env);
        } else {
          VisitUpserts(ph0, last, hostKey, external, env);
          ReconcileMeta(pairs, dumped, hostKey, external, env);
        }
      }
    }
  }

  /** One visit appends to the events: it records the pair's host-entry sync, if any, and else only upserts. */
  lemma VisitSyncs(ph: Pass, p: IPIdentityPair, hostKey: uint8, external: bool, env: SyncEnv)
    ensures var ev := Visit(ph, p, hostKey, external, env).events;
      && |ph.events| <= |ev| && ev[..|ph.events|] == ph.events
      && Syncs(ev) == Syncs(ph.events) + HostSync(p, env)
  {
    var ev := Visit(ph, p, hostKey, external, env).events;
    var tail := ev[|ph.events|..];
    assert ev == ph.events + tail;
    SyncsAppend(ph.events, tail);
    var u := Upsert(p, hostKey, Visit(ph, p, hostKey, external, env).meta);
    if p.id == ReservedIdentityHost {
      var e := LxcSyncHostEntry(p.ip, env.syncHostEntry(p.ip));
      assert Syncs([e]) == Syncs([]) + [e];
      if env.syncHostEntry(p.ip).Ok? {
        assert tail == [e, u] && [e, u][..1] == [e];
      }
    } else {
      assert tail == [u];
      assert Syncs([u]) == Syncs([]) + [];
    }
  }

  /** A visit of a host pair whose sync succeeds records the sync immediately before the upsert. */
  lemma VisitSyncThenUpsert(ph: Pass, p: IPIdentityPair, hostKey: uint8, external: bool, env: SyncEnv)
    requires p.id == ReservedIdentityHost && !SyncFails(p, env)
    ensures var ph' := Visit(ph, p, hostKey, external, env);
      InTurn(ph'.events, LxcSyncHostEntry(p.ip, env.syncHostEntry(p.ip)), Upsert(p, hostKey, ph'.meta))
  {
    var ph' := Visit(ph, p, hostKey, external, env);
    var i := |ph.events|;
    assert ph'.events[i] == LxcSyncHostEntry(p.ip, env.syncHostEntry(p.ip));
    assert ph'.events[i + 1] == Upsert(p, hostKey, ph'.meta);
  }

  /** Events appended after `a` and `b` keep them in turn. */
  lemma InTurnPrefix(ev: seq<Event>, ev': seq<Event>, a: Event, b: Event)
    requires |ev| <= |ev'| && ev'[..|ev|] == ev && InTurn(ev, a, b)
    ensures InTurn(ev', a, b)
  {
    var i :| 0 <= i < |ev| - 1 && ev[i] == a && ev[i + 1] == b;
    assert ev'[i] == ev[i] && ev'[i + 1] == ev[i + 1];
  }

  /** The number of pairs the pass visits: up to and including the first failing host pair. */
  function Visited(pairs: seq<IPIdentityPair>, env: SyncEnv): (n: nat)
    ensures n <= |pairs|
  {
    var first := FirstFailedHost(pairs, env);
    if first.Some? then first.value + 1 else |pairs|
  }

  lemma VisitedAppend(pairs: seq<IPIdentityPair>, env: SyncEnv)
    requires pairs != []
    ensures var init := pairs[..|pairs| - 1];
      Visited(pairs, env) == if FirstFailedHost(init, env).Some? then Visited(init, env) else |pairs|
  {
  }

  /**
   * The pass syncs into the endpoint map exactly the host pairs up to and
   * including the first whose sync fails (every host pair when none fails),
   * in list order, each recording its own outcome.
   */
  lemma {:induction false} ReconcileHostSyncs(pairs: seq<IPIdentityPair>, dumped: map<string, EndpointInfo>,
                                              hostKey: uint8, external: bool, env: SyncEnv)
    ensures Syncs(Reconcile(pairs, dumped, hostKey, external, env).events) == HostSyncs(pairs[..Visited(pairs, env)], env)
  {
    if pairs != [] {
      var init := pairs[..|pairs| - 1];
      ReconcileHostSyncs(init, dumped, hostKey, external, env);
      ReconcileFailure(init, dumped, hostKey, external, env);
      VisitedAppend(pairs, env);
      if Reconcile(init, dumped, hostKey, external, env).failure.Some? {
        HostSyncsHalted(pairs, dumped, hostKey, external, env);
      } else {
        HostSyncsVisit(pairs, dumped, hostKey, external, env);
      }
    }
  }

  lemma HostSyncsHalted(pairs: seq<IPIdentityPair>, dumped: map<string, EndpointInfo>,
                        hostKey: uint8, external: bool, env: SyncEnv)
    requires pairs != []
    requires var init := pairs[..|pairs| - 1];
      && Reconcile(init, dumped, hostKey, external, env).failure.Some?
      && Syncs(Reconcile(init, dumped, hostKey, external, env).events) == HostSyncs(init[..Visited(init, env)], env)
      && Visited(pairs, env) == Visited(init, env)
    ensures Syncs(Reconcile(pairs, dumped, hostKey, external, env).events) == HostSyncs(pairs[..Visited(pairs, env)], env)
  {
    var n := Visited(pairs, env);
    assert pairs[..n] == pairs[..|pairs| - 1][..n];
  }

  lemma HostSyncsVisit(pairs: seq<IPIdentityPair>, dumped: map<string, EndpointInfo>,
                       hostKey: uint8, external: bool, env: SyncEnv)
    requires pairs != []
    requires var init := pairs[..|pairs| - 1];
      && Reconcile(init, dumped, hostKey, external, env).failure.None?
      && Syncs(Reconcile(init, dumped, hostKey, external, env).events) == HostSyncs(init[..Visited(init, env)], env)
      && Visited(init, env) == |init| && Visited(pairs, env) == |pairs|
    ensures Syncs(Reconcile(pairs, dumped, hostKey, external, env).events) == HostSyncs(pairs[..Visited(pairs, env)], env)
  {
    var init, last := pairs[..|pairs| - 1], pairs[|pairs| - 1];
    VisitSyncs(Reconcile(init, dumped, hostKey, external, env), last, hostKey, external, env);
    HostSyncsAppend(init, last, env);
    assert init[..|init|] == init;
    assert pairs[..|pairs|] == init + [last];
  }

  /**
   * Every host pair before the first failing one is synced into the endpoint
   * map immediately before its upsert into the identity cache.
   */
  lemma {:induction false} ReconcileSyncThenUpsert(pairs: seq<IPIdentityPair>, dumped: map<string, EndpointInfo>,
                                                   hostKey: uint8, external: bool, env: SyncEnv)
    ensures var first := FirstFailedHost(pairs, env);
      var n := if first.Some? then first.value else |pairs|;
      forall j :: 0 <= j < n && pairs[j].id == ReservedIdentityHost ==>
        InTurn(Reconcile(pairs, dumped, hostKey, external, env).events,
               LxcSyncHostEntry(pairs[j].ip, env.syncHostEntry(pairs[j].ip)),
               Upsert(pairs[j], hostKey, CarriedMeta(pairs[..j + 1], external, env)))
  {
    if pairs != [] {
      var init, last := pairs[..|pairs| - 1], pairs[|pairs| - 1];
      ReconcileSyncThenUpsert(init, dumped, hostKey, external, env);
      ReconcileFailure(init, dumped, hostKey, external, env);
      FirstFailedHostAppend(pairs, env);
      var ph0 := Reconcile(init, dumped, hostKey, external, env);
      var ph := Reconcile(pairs, dumped, hostKey, external, env);
      var first := FirstFailedHost(pairs, env);
      var n := if first.Some? then first.value else |pairs|;
      forall j | 0 <= j < n && pairs[j].id == ReservedIdentityHost
        ensures InTurn(ph.events, LxcSyncHostEntry(pairs[j].ip, env.syncHostEntry(pairs[j].ip)),
                       Upsert(pairs[j], hostKey, CarriedMeta(pairs[..j + 1], external, env)))
      {
        if j < |init| {
          assert pairs[j] == init[j] && pairs[..j + 1] == init[..j + 1];
          if ph0.failure.None? {
            assert ph == Visit(ph0, last, hostKey, external, env);
            VisitSyncs(ph0, last, hostKey, external, env);
            InTurnPrefix(ph0.events, ph.events, LxcSyncHostEntry(init[j].ip, env.syncHostEntry(init[j].ip)),
                         Upsert(init[j], hostKey, CarriedMeta(init[..j + 1], external, env)));
          }
        } else {
          assert ph == Visit(ph0, last, hostKey, external, env);
          VisitSyncThenUpsert(ph0, last, hostKey, external, env);
          ReconcileMeta(pairs, dumped, hostKey, external, env);
          assert pairs[..j + 1] == pairs;
        }
      }
    }
  }

  /**
   * When the pass completes, the snapshot has lost exactly the keys of the
   * pairs and kept every other entry unchanged; the pass records only endpoint-map
   * host-entry syncs and cache upserts, never a deletion.
   */
  lemma {:induction false} ReconcileRemaining(pairs: seq<IPIdentityPair>, dumped: map<string, EndpointInfo>,
                                              hostKey: uint8, external: bool, env: SyncEnv)
    ensures var ph := Reconcile(pairs, dumped, hostKey, external, env);
      && (ph.failure.None? ==> ph.remaining == dumped - Keys(pairs, env))
      && forall e :: e in ph.events ==> e.LxcSyncHostEntry? || e.CacheUpsert?
  {
    if pairs != [] {
      var init, last := pairs[..|pairs| - 1], pairs[|pairs| - 1];
      ReconcileRemaining(init, dumped, hostKey, external, env);
      assert pairs == init + [last];
      assert Keys(pairs, env) == Keys(init, env) + {env.ipString(last.ip)};
    }
  }

  /** A stale entry: host-tagged, its key parses as an IP, and it is still in the snapshot. */
  predicate Stale(k: string, remaining: map<string, EndpointInfo>, env: SyncEnv)
  {
    k in remaining && remaining[k].isHost && env.parseIP(k).Some?
  }

  /** The operations one leftover key causes: delete from the endpoint map, then from the cache. */
  function EvictKey(k: string, remaining: map<string, EndpointInfo>, env: SyncEnv): seq<Event>
  {
    if Stale(k, remaining, env) then
      var ip := env.parseIP(k).value;
      [LxcDeleteEntry(ip, env.deleteEntry(ip)), CacheDelete(k, Local)]
    else []
  }

  /** The eviction loop, visiting the leftover keys in `order`. */
  function Evict(order: seq<string>, remaining: map<string, EndpointInfo>, env: SyncEnv): seq<Event>
  {
    if order == [] then []
    else Evict(order[..|order| - 1], remaining, env) + EvictKey(order[|order| - 1], remaining, env)
  }

  /**
   * Eviction deletes from the cache, with source Local, exactly the stale keys
   * it visits, and from the endpoint map exactly their parsed addresses.
   */
  lemma {:induction false} EvictDeletes(order: seq<string>, remaining: map<string, EndpointInfo>, env: SyncEnv)
    ensures var ev := Evict(order, remaining, env);
      && (forall k, s :: CacheDelete(k, s) in ev <==> s == Local && k in order && Stale(k, remaining, env))
      && (forall ip, f :: LxcDeleteEntry(ip, f) in ev <==>
            exists k :: k in order && Stale(k, remaining, env) && env.parseIP(k) == Some(ip) && f == env.deleteEntry(ip))
  {
    if order != [] {
      var init, k := order[..|order| - 1], order[|order| - 1];
      EvictDeletes(init, remaining, env);
      assert order == init + [k];
    }
  }

  /**
   * Each endpoint-map deletion of a visited stale key, failed or not, is
   * immediately followed by the cache deletion of the same key.
   */
  lemma {:induction false} EvictPairs(order: seq<string>, remaining: map<string, EndpointInfo>, env: SyncEnv, k: string)
    requires k in order && Stale(k, remaining, env)
    ensures var ip := env.parseIP(k).value;
      InTurn(Evict(order, remaining, env), LxcDeleteEntry(ip, env.deleteEntry(ip)), CacheDelete(k, Local))
  {
    var init, last := order[..|order| - 1], order[|order| - 1];
    assert order == init + [last];
    var ev0 := Evict(init, remaining, env);
    var ev := Evict(order, remaining, env);
    var ip := env.parseIP(k).value;
    assert ev == ev0 + EvictKey(last, remaining, env);
    if k == last {
      assert EvictKey(last, remaining, env) == [LxcDeleteEntry(ip, env.deleteEntry(ip)), CacheDelete(k, Local)];
      var i := |ev0|;
      assert 0 <= i < |ev| - 1 && ev[i] == LxcDeleteEntry(ip, env.deleteEntry(ip)) && ev[i + 1] == CacheDelete(k, Local);
    } else {
      assert k in init;
      EvictPairs(init, remaining, env, k);
      var i :| 0 <= i < |ev0| - 1 && ev0[i] == LxcDeleteEntry(ip, env.deleteEntry(ip)) && ev0[i + 1] == CacheDelete(k, Local);
      assert ev[i] == ev0[i] && ev[i + 1] == ev0[i + 1];
    }
  }

  /** Eviction records endpoint-map and cache deletions and nothing else. */
  lemma {:induction false} EvictOnlyDeletes(order: seq<string>, remaining: map<string, EndpointInfo>, env: SyncEnv)
    ensures forall e :: e in Evict(order, remaining, env) ==> e.LxcDeleteEntry? || e.CacheDelete?
  {
    if order != [] {
      EvictOnlyDeletes(order[..|order| - 1], remaining, env);
    }
  }

  /** What one run of syncEndpointsAndHostIPs records, and what it returns. */
  datatype SyncRun = SyncRun(events: seq<Event>, err: Option<Error>)

  /** The upsert pass of a run that got past the dump. */
  function PassOf(cfg: Config, env: SyncEnv, dumped: map<string, EndpointInfo>, hostKey: uint8): Pass
  {
    Reconcile(SpecialOf(cfg, env), dumped, hostKey, cfg.externalWorkload, env)
  }

  /** A run reaches the eviction loop: not dry, the dump succeeded, every host entry synced. */
  predicate ReachesEviction(cfg: Config, env: SyncEnv, hostKey: uint8)
  {
    !cfg.dryMode && env.dump.Ok? && PassOf(cfg, env, env.dump.value, hostKey).failure.None?
  }

  /** The snapshot entries the eviction loop visits. */
  function Leftover(cfg: Config, env: SyncEnv, hostKey: uint8): map<string, EndpointInfo>
  {
    if ReachesEviction(cfg, env, hostKey) then PassOf(cfg, env, env.dump.value, hostKey).remaining else map[]
  }

  /** syncEndpointsAndHostIPs, with the leftover keys visited in `order`. */
  function Sync(cfg: Config, env: SyncEnv, hostKey: uint8, order: seq<string>): SyncRun
  {
    if cfg.dryMode then SyncRun([], None)
    else match env.dump
      case Err(e) => SyncRun([LxcDumpToMap], Some(e))
      case Ok(dumped) => SyncFrom(SpecialOf(cfg, env), dumped, hostKey, cfg.externalWorkload, env, order)
  }

  /** The run after a successful dump: the upsert pass over `pairs`, then, unless it failed, the eviction. */
  function SyncFrom(pairs: seq<IPIdentityPair>, dumped: map<string, EndpointInfo>, hostKey: uint8,
                    external: bool, env: SyncEnv, order: seq<string>): SyncRun
  {
    var ph := Reconcile(pairs, dumped, hostKey, external, env);
    if ph.failure.Some? then SyncRun([LxcDumpToMap] + ph.events, ph.failure)
    else SyncRun([LxcDumpToMap] + ph.events + Evict(order, ph.remaining, env), None)
  }

  /** Dry mode does nothing; a failed dump returns its error before any upsert or deletion. */
  lemma SyncEarlyExits(cfg: Config, env: SyncEnv, hostKey: uint8, order: seq<string>)
    ensures cfg.dryMode ==> Sync(cfg, env, hostKey, order) == SyncRun([], None)
    ensures !cfg.dryMode && env.dump.Err? ==>
      Sync(cfg, env, hostKey, order) == SyncRun([LxcDumpToMap], Some(env.dump.error))
  {
  }

  /**
   * Past the dump, the run upserts the special pairs in list order with source
   * Local; it stops with the wrapped error at the first host pair whose
   * SyncHostEntry fails (that call is the last thing it does, and nothing is
   * deleted), and otherwise returns nil.
   */
  lemma SyncUpserts(cfg: Config, env: SyncEnv, hostKey: uint8, order: seq<string>)
    requires !cfg.dryMode && env.dump.Ok?
    ensures var run := Sync(cfg, env, hostKey, order);
      var special := SpecialOf(cfg, env);
      var first := FirstFailedHost(special, env);
      var n := if first.Some? then first.value else |special|;
      && run.err == (if first.Some? then Some(HostEntryFailed(env.syncHostEntry(special[n].ip).error)) else None)
      && |Upserts(run.events)| == n
      && (forall i :: 0 <= i < n ==>
            Upserts(run.events)[i] == Upsert(special[i], hostKey, CarriedMeta(special[..i + 1], cfg.externalWorkload, env)))
      && (first.Some? ==>
            && run.events[|run.events| - 1] == LxcSyncHostEntry(special[n].ip, env.syncHostEntry(special[n].ip))
            && forall e :: e in run.events ==> !e.CacheDelete? && !e.LxcDeleteEntry?)
      && HostSyncsOf(run.events, special, n, hostKey, cfg.externalWorkload, env)
  {
    SyncFromUpserts(SpecialOf(cfg, env), env.dump.value, hostKey, cfg.externalWorkload, env, order);
  }

  /** SyncUpserts, for any list of pairs. */
  lemma SyncFromUpserts(pairs: seq<IPIdentityPair>, dumped: map<string, EndpointInfo>, hostKey: uint8,
                        external: bool, env: SyncEnv, order: seq<string>)
    ensures var run := SyncFrom(pairs, dumped, hostKey, external, env, order);
      var first := FirstFailedHost(pairs, env);
      var n := if first.Some? then first.value else |pairs|;
      && run.err == (if first.Some? then Some(HostEntryFailed(env.syncHostEntry(pairs[n].ip).error)) else None)
      && UpsertsOf(Upserts(run.events), pairs, n, hostKey, external, env)
      && (first.Some? ==>
            && run.events[|run.events| - 1] == LxcSyncHostEntry(pairs[n].ip, env.syncHostEntry(pairs[n].ip))
            && forall e :: e in run.events ==> !e.CacheDelete? && !e.LxcDeleteEntry?)
      && HostSyncsOf(run.events, pairs, n, hostKey, external, env)
  {
    SyncFromHostSyncs(pairs, dumped, hostKey, external, env, order);
    var ph := Reconcile(pairs, dumped, hostKey, external, env);
    ReconcileUpserts(pairs, dumped, hostKey, external, env);
    ReconcileFailure(pairs, dumped, hostKey, external, env);
    if ph.failure.Some? {
      // the run stopped while visiting the first failing pair, right after its failed sync
      ReconcileFailedLast(pairs, dumped, hostKey, external, env);
      ReconcileRemaining(pairs, dumped, hostKey, external, env);
      UpsertsAround(ph.events, []);
      assert [LxcDumpToMap] + ph.events + [] == [LxcDumpToMap] + ph.events;
    } else {
      EvictOnlyDeletes(order, ph.remaining, env);
      UpsertsAround(ph.events, Evict(order, ph.remaining, env));
    }
  }

  /** The dump before a pass and deletions after it add no upsert. */
  lemma UpsertsAround(ev: seq<Event>, post: seq<Event>)
    requires forall e :: e in post ==> e.LxcDeleteEntry? || e.CacheDelete?
    ensures Upserts([LxcDumpToMap] + ev + post) == Upserts(ev)
  {
    UpsertsAppend([LxcDumpToMap], ev);
    assert Upserts([LxcDumpToMap]) == Upserts([]) + [];
    NoUpserts(post);
    UpsertsAppend([LxcDumpToMap] + ev, post);
  }

  /**
   * The endpoint-map writes of a run: the syncs are those of the host pairs of
   * `pairs[..Visited(pairs, env)]`, in list order, and each host pair before
   * position `n` is synced immediately before its upsert.
   */
  predicate HostSyncsOf(events: seq<Event>, pairs: seq<IPIdentityPair>, n: nat, hostKey: uint8, external: bool, env: SyncEnv)
    requires n <= |pairs|
  {
    && Syncs(events) == HostSyncs(pairs[..Visited(pairs, env)], env)
    && forall j :: 0 <= j < n && pairs[j].id == ReservedIdentityHost ==>
         InTurn(events, LxcSyncHostEntry(pairs[j].ip, env.syncHostEntry(pairs[j].ip)),
                Upsert(pairs[j], hostKey, CarriedMeta(pairs[..j + 1], external, env)))
  }

  /** A run meets HostSyncsOf: the syncs and their order come from the upsert pass. */
  lemma SyncFromHostSyncs(pairs: seq<IPIdentityPair>, dumped: map<string, EndpointInfo>, hostKey: uint8,
                          external: bool, env: SyncEnv, order: seq<string>)
    ensures var first := FirstFailedHost(pairs, env);
      HostSyncsOf(SyncFrom(pairs, dumped, hostKey, external, env, order).events, pairs,
                  if first.Some? then first.value else |pairs|, hostKey, external, env)
  {
    var first := FirstFailedHost(pairs, env);
    var n := if first.Some? then first.value else |pairs|;
    ReconcileHostSyncs(pairs, dumped, hostKey, external, env);
    SyncFromSyncs(pairs, dumped, hostKey, external, env, order);
    ReconcileSyncThenUpsert(pairs, dumped, hostKey, external, env);
    forall j | 0 <= j < n && pairs[j].id == ReservedIdentityHost
      ensures InTurn(SyncFrom(pairs, dumped, hostKey, external, env, order).events,
                     LxcSyncHostEntry(pairs[j].ip, env.syncHostEntry(pairs[j].ip)),
                     Upsert(pairs[j], hostKey, CarriedMeta(pairs[..j + 1], external, env)))
    {
      SyncFromInTurn(pairs, dumped, hostKey, external, env, order, LxcSyncHostEntry(pairs[j].ip, env.syncHostEntry(pairs[j].ip)),
                     Upsert(pairs[j], hostKey, CarriedMeta(pairs[..j + 1], external, env)));
    }
  }

  /** Neither the dump nor the eviction syncs: the syncs of a run are those of its upsert pass. */
  lemma SyncFromSyncs(pairs: seq<IPIdentityPair>, dumped: map<string, EndpointInfo>, hostKey: uint8,
                      external: bool, env: SyncEnv, order: seq<string>)
    ensures Syncs(SyncFrom(pairs, dumped, hostKey, external, env, order).events)
      == Syncs(Reconcile(pairs, dumped, hostKey, external, env).events)
  {
    var ph := Reconcile(pairs, dumped, hostKey, external, env);
    if ph.failure.Some? {
      SyncsAround(ph.events, []);
      assert [LxcDumpToMap] + ph.events + [] == [LxcDumpToMap] + ph.events;
    } else {
      EvictOnlyDeletes(order, ph.remaining, env);
      SyncsAround(ph.events, Evict(order, ph.remaining, env));
    }
  }

  /** The dump before a pass and deletions after it add no sync. */
  lemma SyncsAround(ev: seq<Event>, post: seq<Event>)
    requires forall e :: e in post ==> e.LxcDeleteEntry? || e.CacheDelete?
    ensures Syncs([LxcDumpToMap] + ev + post) == Syncs(ev)
  {
    SyncsAppend([LxcDumpToMap], ev);
    assert Syncs([LxcDumpToMap]) == Syncs([]) + [];
    NoSyncs(post);
    SyncsAppend([LxcDumpToMap] + ev, post);
  }

  /** Two events adjacent in the upsert pass stay adjacent in the run. */
  lemma SyncFromInTurn(pairs: seq<IPIdentityPair>, dumped: map<string, EndpointInfo>, hostKey: uint8,
                       external: bool, env: SyncEnv, order: seq<string>, a: Event, b: Event)
    requires InTurn(Reconcile(pairs, dumped, hostKey, external, env).events, a, b)
    ensures InTurn(SyncFrom(pairs, dumped, hostKey, external, env, order).events, a, b)
  {
    var ph := Reconcile(pairs, dumped, hostKey, external, env);
    if ph.failure.Some? {
      InTurnExtend([LxcDumpToMap], ph.events, [], a, b);
      assert [LxcDumpToMap] + ph.events + [] == [LxcDumpToMap] + ph.events;
    } else {
      InTurnExtend([LxcDumpToMap], ph.events, Evict(order, ph.remaining, env), a, b);
    }
  }

  /** A sequence of deletions records no endpoint-map sync. */
  lemma {:induction false} NoSyncs(events: seq<Event>)
    requires forall e :: e in events ==> !e.LxcSyncHostEntry?
    ensures Syncs(events) == []
  {
    if events != [] {
      NoSyncs(events[..|events| - 1]);
    }
  }

  /** A failed pass ends with the failed SyncHostEntry of the first failing host pair. */
  lemma {:induction false} ReconcileFailedLast(pairs: seq<IPIdentityPair>, dumped: map<string, EndpointInfo>,
                                               hostKey: uint8, external: bool, env: SyncEnv)
    requires Reconcile(pairs, dumped, hostKey, external, env).failure.Some?
    ensures var ev := Reconcile(pairs, dumped, hostKey, external, env).events;
      var first := FirstFailedHost(pairs, env);
      first.Some? && |ev| > 0 && ev[|ev| - 1] == LxcSyncHostEntry(pairs[first.value].ip, env.syncHostEntry(pairs[first.value].ip))
  {
    var init := pairs[..|pairs| - 1];
    ReconcileFailure(init, dumped, hostKey, external, env);
    FirstFailedHostAppend(pairs, env);
    if Reconcile(init, dumped, hostKey, external, env).failure.Some? {
      ReconcileFailedLast(init, dumped, hostKey, external, env);
      var f := FirstFailedHost(init, env).value;
      assert pairs[f] == init[f];
    }
  }

  /** A sequence of deletions records no upsert. */
  lemma {:induction false} NoUpserts(events: seq<Event>)
    requires forall e :: e in events ==> !e.CacheUpsert?
    ensures Upserts(events) == []
  {
    if events != [] {
      NoUpserts(events[..|events| - 1]);
    }
  }

  /** A dumped entry the run must evict: host-tagged, its key parses as an IP, and no special pair has that key. */
  predicate StaleEntry(k: string, cfg: Config, env: SyncEnv)
    requires env.dump.Ok?
  {
    k in env.dump.value && env.dump.value[k].isHost && env.parseIP(k).Some? && k !in Keys(SpecialOf(cfg, env), env)
  }

  /** The stale keys the eviction loop visits are exactly the stale entries of the dump. */
  lemma LeftoverStale(cfg: Config, env: SyncEnv, hostKey: uint8, order: seq<string>)
    requires ReachesEviction(cfg, env, hostKey)
    requires Enumerates(order, Leftover(cfg, env, hostKey).Keys)
    ensures forall k :: k in order && Stale(k, Leftover(cfg, env, hostKey), env) <==> StaleEntry(k, cfg, env)
  {
    ReconcileRemaining(SpecialOf(cfg, env), env.dump.value, hostKey, cfg.externalWorkload, env);
  }

  /** The events of a run that reaches eviction: the dump, the upsert pass, then the eviction. */
  lemma SyncEvents(cfg: Config, env: SyncEnv, hostKey: uint8, order: seq<string>)
    requires ReachesEviction(cfg, env, hostKey)
    ensures var head := [LxcDumpToMap] + PassOf(cfg, env, env.dump.value, hostKey).events;
      && Sync(cfg, env, hostKey, order) == SyncRun(head + Evict(order, Leftover(cfg, env, hostKey), env), None)
      && forall e :: e in head ==> !e.CacheDelete? && !e.LxcDeleteEntry?
  {
    ReconcileRemaining(SpecialOf(cfg, env), env.dump.value, hostKey, cfg.externalWorkload, env);
  }

  /**
   * A run that reaches eviction deletes from the cache, with source Local,
   * exactly the stale entries of the dumped endpoint map: non-host entries,
   * keys that do not parse, and keys of special pairs are never deleted; it
   * returns nil.
   */
  lemma SyncStaleDeletion(cfg: Config, env: SyncEnv, hostKey: uint8, order: seq<string>)
    requires ReachesEviction(cfg, env, hostKey)
    requires Enumerates(order, Leftover(cfg, env, hostKey).Keys)
    ensures var run := Sync(cfg, env, hostKey, order);
      && run.err == None
      && forall k, s :: CacheDelete(k, s) in run.events <==> s == Local && StaleEntry(k, cfg, env)
  {
    SyncEvents(cfg, env, hostKey, order);
    LeftoverStale(cfg, env, hostKey, order);
    EvictDeletes(order, Leftover(cfg, env, hostKey), env);
  }

  /** The endpoint-map deletions of such a run are exactly of the parsed addresses of stale entries. */
  lemma SyncStaleEndpointDeletion(cfg: Config, env: SyncEnv, hostKey: uint8, order: seq<string>)
    requires ReachesEviction(cfg, env, hostKey)
    requires Enumerates(order, Leftover(cfg, env, hostKey).Keys)
    ensures forall ip, f :: LxcDeleteEntry(ip, f) in Sync(cfg, env, hostKey, order).events <==>
      f == env.deleteEntry(ip) && exists k :: StaleEntry(k, cfg, env) && env.parseIP(k) == Some(ip)
  {
    SyncEvents(cfg, env, hostKey, order);
    LeftoverStale(cfg, env, hostKey, order);
    EvictDeletes(order, Leftover(cfg, env, hostKey), env);
  }

  /**
   * For each stale entry the endpoint-map deletion of its address is
   * immediately followed by the cache deletion of its key, whatever the
   * outcome of the endpoint-map deletion (a failure is only logged).
   */
  lemma SyncDeletesDespiteFailures(cfg: Config, env: SyncEnv, hostKey: uint8, order: seq<string>, k: string)
    requires ReachesEviction(cfg, env, hostKey)
    requires Enumerates(order, Leftover(cfg, env, hostKey).Keys)
    requires StaleEntry(k, cfg, env)
    ensures var ip := env.parseIP(k).value;
      InTurn(Sync(cfg, env, hostKey, order).events, LxcDeleteEntry(ip, env.deleteEntry(ip)), CacheDelete(k, Local))
  {
    LeftoverStale(cfg, env, hostKey, order);
    var special := SpecialOf(cfg, env);
    SyncFromEvicts(special, env.dump.value, hostKey, cfg.externalWorkload, env, order, k);
    assert Sync(cfg, env, hostKey, order) == SyncFrom(special, env.dump.value, hostKey, cfg.externalWorkload, env, order);
  }

  /** SyncDeletesDespiteFailures, for any list of pairs and any visited stale key. */
  lemma SyncFromEvicts(pairs: seq<IPIdentityPair>, dumped: map<string, EndpointInfo>, hostKey: uint8,
                       external: bool, env: SyncEnv, order: seq<string>, k: string)
    requires Reconcile(pairs, dumped, hostKey, external, env).failure.None?
    requires k in order && Stale(k, Reconcile(pairs, dumped, hostKey, external, env).remaining, env)
    ensures var ip := env.parseIP(k).value;
      InTurn(SyncFrom(pairs, dumped, hostKey, external, env, order).events, LxcDeleteEntry(ip, env.deleteEntry(ip)),
             CacheDelete(k, Local))
  {
    var ph := Reconcile(pairs, dumped, hostKey, external, env);
    EvictPairs(order, ph.remaining, env, k);
    var head := [LxcDumpToMap] + ph.events;
    var ev := Evict(order, ph.remaining, env);
    var run := SyncFrom(pairs, dumped, hostKey, external, env, order);
    var ip := env.parseIP(k).value;
    var i :| 0 <= i < |ev| - 1 && ev[i] == LxcDeleteEntry(ip, env.deleteEntry(ip)) && ev[i + 1] == CacheDelete(k, Local);
    assert run.events == head + ev;
    assert run.events[|head| + i] == ev[i] && run.events[|head| + i + 1] == ev[i + 1];
  }
}
