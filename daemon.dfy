/**
 * The agent's datapath operations as methods of one object. Its state is the
 * ordered log of every operation performed on the kernel maps, the identity
 * cache and netlink, and the node's IPsec key identity that setupIPSec writes
 * and syncEndpointsAndHostIPs reads. Each method is proved against the
 * specification functions of the other modules.
 */
module Daemon {
  import opened DatapathTypes
  import opened SpecialIdentities
  import opened EndpointSync
  import opened Veths
  import opened Bootstrap

  class Daemon {
    /** Every operation on the endpoint map, the identity cache, the other BPF maps and netlink, in order. */
    var log: seq<Event>
    /** node.GetIPsecKeyIdentity(): the SPI of the loaded IPsec key, 0 until one is loaded. */
    var ipsecKeyIdentity: uint8

    constructor ()
      ensures log == [] && ipsecKeyIdentity == 0
    {
      log := [];
      ipsecKeyIdentity := 0;
    }

    /**
     * syncEndpointsAndHostIPs: build the special pairs, dump the endpoint map,
     * upsert every pair into the identity cache (syncing host pairs into the
     * endpoint map first, and stopping at the first sync that fails), then
     * delete the stale host entries left in the dump from both. The leftover
     * entries are visited in `order`, one iteration order of the Go map.
     */
    method SyncEndpointsAndHostIPs(cfg: Config, env: SyncEnv) returns (err: Option<Error>, order: seq<string>)
      modifies this`log
      ensures log == old(log) + Sync(cfg, env, ipsecKeyIdentity, order).events
      ensures err == Sync(cfg, env, ipsecKeyIdentity, order).err
      ensures ReachesEviction(cfg, env, ipsecKeyIdentity) ==> Enumerates(order, Leftover(cfg, env, ipsecKeyIdentity).Keys)
    {
      order := [];
      if cfg.dryMode {
        return None, order;
      }
      var special := CollectSpecialIdentities(cfg, env.ipv4, env.ipv6, env.ipv6Router);
      log := log + [LxcDumpToMap];
      if env.dump.Err? {
        return Some(env.dump.error), order;
      }
      err, order := SyncSnapshot(special, env.dump.value, cfg.externalWorkload, env, old(log));
      assert special == SpecialOf(cfg, env);
    }

    /**
     * The part of syncEndpointsAndHostIPs after a successful dump: the upsert
     * loop over the special pairs, then, unless a host sync failed, the
     * deletion of the stale host entries left in the snapshot.
     */
    method SyncSnapshot(special: seq<IPIdentityPair>, dumped: map<string, EndpointInfo>, external: bool,
                        env: SyncEnv, ghost base: seq<Event>)
      returns (err: Option<Error>, order: seq<string>)
      requires log == base + [LxcDumpToMap]
      modifies this`log
      ensures var run := SyncFrom(special, dumped, ipsecKeyIdentity, external, env, order);
        log == base + run.events && err == run.err
      ensures var ph := Reconcile(special, dumped, ipsecKeyIdentity, external, env);
        ph.failure.None? ==> Enumerates(order, ph.remaining.Keys)
    {
      order := [];
      var existingEndpoints, failure := UpsertSpecialIdentities(special, dumped, external, env);
      if failure.Some? {
        return failure, order;
      }
      order := DeleteStaleHostEntries(existingEndpoints, env);
      err := None;
    }

    /**
     * The upsert loop of syncEndpointsAndHostIPs over the special pairs,
     * starting from the dumped endpoint map: it returns what is left of the
     * dump, or the wrapped error of the first failing SyncHostEntry.
     */
    method UpsertSpecialIdentities(special: seq<IPIdentityPair>, dumped: map<string, EndpointInfo>,
                                   external: bool, env: SyncEnv)
      returns (existingEndpoints: map<string, EndpointInfo>, failure: Option<Error>)
      modifies this`log
      ensures var ph := Reconcile(special, dumped, ipsecKeyIdentity, external, env);
        log == old(log) + ph.events && failure == ph.failure && (failure.None? ==> existingEndpoints == ph.remaining)
    {
      existingEndpoints := dumped;
      var k8sMeta: Option<K8sMetadata> := None;
      for i := 0 to |special|
        invariant var ph := Reconcile(special[..i], dumped, ipsecKeyIdentity, external, env);
          log == old(log) + ph.events && ph.remaining == existingEndpoints && ph.meta == k8sMeta && ph.failure.None?
      {
        ghost var ph := Reconcile(special[..i], dumped, ipsecKeyIdentity, external, env);
        ReconcileStep(special, i, dumped, ipsecKeyIdentity, external, env);
        existingEndpoints, k8sMeta, failure := VisitSpecialIdentity(special[i], existingEndpoints, k8sMeta, external, env,
                                                                   old(log), ph);
        if failure.Some? {
          ReconcileHalted(special, i + 1, dumped, ipsecKeyIdentity, external, env);
          return;
        }
      }
      assert special[..|special|] == special;
      failure := None;
    }

    /**
     * One iteration of the upsert loop: a host pair is first synced into the
     * endpoint map (a failure ends the loop) and, for an external workload,
     * replaces the carried k8s metadata with the cache's; then the pair's key
     * leaves the snapshot and the pair is upserted with the node's key identity.
     */
    method VisitSpecialIdentity(ipIDPair: IPIdentityPair, existingEndpoints: map<string, EndpointInfo>,
                                k8sMeta: Option<K8sMetadata>, external: bool, env: SyncEnv,
                                ghost base: seq<Event>, ghost ph: Pass)
      returns (existing': map<string, EndpointInfo>, k8sMeta': Option<K8sMetadata>, failure: Option<Error>)
      requires log == base + ph.events && ph.remaining == existingEndpoints && ph.meta == k8sMeta
      modifies this`log
      ensures var next := Visit(ph, ipIDPair, ipsecKeyIdentity, external, env);
        log == base + next.events && failure == next.failure
        && (failure.None? ==> existing' == next.remaining && k8sMeta' == next.meta)
    {
      existing', k8sMeta' := existingEndpoints, k8sMeta;
      var hostKey := ipsecKeyIdentity;
      if ipIDPair.id == ReservedIdentityHost {
        var added := env.syncHostEntry(ipIDPair.ip);
        log := log + [LxcSyncHostEntry(ipIDPair.ip, added)];
        if added.Err? {
          return existing', k8sMeta', Some(HostEntryFailed(added.error));
        }
        if external {
          // host addresses of an external workload may already carry k8s metadata
          k8sMeta' := env.k8sMetadata(env.ipString(ipIDPair.ip));
        }
      }
      existing' := existing' - {env.ipString(ipIDPair.ip)};
      log := log + [Upsert(ipIDPair, hostKey, k8sMeta')];
      failure := None;
    }

    /**
     * The deletion loop of syncEndpointsAndHostIPs: every leftover entry that
     * is host-tagged and whose key parses as an IP is deleted from the
     * endpoint map and then from the identity cache. The entries are visited
     * in `order`.
     */
    method DeleteStaleHostEntries(existingEndpoints: map<string, EndpointInfo>, env: SyncEnv) returns (order: seq<string>)
      modifies this`log
      ensures Enumerates(order, existingEndpoints.Keys)
      ensures log == old(log) + Evict(order, existingEndpoints, env)
    {
      order := IterationOrder(existingEndpoints.Keys);
      for i := 0 to |order|
        invariant log == old(log) + Evict(order[..i], existingEndpoints, env)
      {
        assert order[..i + 1][..i] == order[..i];
        assert Evict(order[..i + 1], existingEndpoints, env)
            == Evict(order[..i], existingEndpoints, env) + EvictKey(order[i], existingEndpoints, env);
        var hostIP := order[i];
        assert hostIP in existingEndpoints;
        var info := existingEndpoints[hostIP];
        var ip := env.parseIP(hostIP);
        if info.isHost && ip.Some? {
          // a failed deletion is only logged; the cache entry is deleted regardless
          var failure := env.deleteEntry(ip.value);
          log := log + [LxcDeleteEntry(ip.value, failure)];
          log := log + [CacheDelete(hostIP, Local)];
        }
      }
      assert order[..|order|] == order;
    }

    /**
     * initMaps: outside dry mode, run the plan's steps in order, recording
     * each; stop at the first step whose error is returned (Failed) or fatal
     * (Aborted).
     */
    method InitMaps(cfg: Config, env: BootEnv) returns (res: InitResult)
      modifies this`log
      ensures log == old(log) + InitRun(cfg, env).events
      ensures res == InitRun(cfg, env).result
    {
      if cfg.dryMode {
        return Completed;
      }
      var plan := InitPlan(cfg, env);
      for i := 0 to |plan|
        invariant Exec(plan[..i], env).result == Completed
        invariant log == old(log) + Exec(plan[..i], env).events
      {
        assert plan[..i + 1][..i] == plan[..i];
        var step := plan[i];
        log := log + [Attempt(step, env)];
        if Halts(step, env) {
          ExecHalted(plan, i + 1, env);
          return Verdict(step, env);
        }
      }
      assert plan[..|plan|] == plan;
      return Completed;
    }

    /** endParallelMapMode: end the ipcache's parallel mode. */
    method EndParallelMapMode()
      modifies this`log
      ensures log == old(log) + [IPCacheEndParallelMode]
    {
      log := log + [IPCacheEndParallelMode];
    }

    /**
     * setupIPSec: without node encryption, delete the IPsec encryption route;
     * with IPsec disabled, return (0, 0, nil); otherwise load the key file,
     * returning (0, 0, err) on failure and, on success, storing the SPI as
     * the node's key identity and returning the key size and SPI.
     */
    method SetupIPSec(cfg: Config, keys: Result<KeyLoad>) returns (authKeySize: int, spi: uint8, err: Option<Error>)
      modifies this
      ensures log == old(log) + IPSecEvents(cfg, keys)
      ensures !cfg.enableIPSec ==> authKeySize == 0 && spi == 0 && err == None && ipsecKeyIdentity == old(ipsecKeyIdentity)
      ensures cfg.enableIPSec && keys.Err? ==>
        authKeySize == 0 && spi == 0 && err == Some(keys.error) && ipsecKeyIdentity == old(ipsecKeyIdentity)
      ensures cfg.enableIPSec && keys.Ok? ==>
        authKeySize == keys.value.authKeySize && spi == keys.value.spi && err == None && ipsecKeyIdentity == spi
    {
      if !cfg.encryptNode {
        log := log + [DeleteIPsecEncryptRoute];
      }
      if !cfg.enableIPSec {
        return 0, 0, None;
      }
      log := log + [LoadIPSecKeysFile(cfg.ipsecKeyFile, keys)];
      if keys.Err? {
        return 0, 0, Some(keys.error);
      }
      ipsecKeyIdentity := keys.value.spi;
      return keys.value.authKeySize, keys.value.spi, None;
    }

    /**
     * clearCiliumVeths: index the host's veths by their own index; on a
     * listing error return it wrapped, deleting nothing; otherwise delete,
     * visiting the index in `order`, every veth whose peer index is
     * non-zero and names an indexed veth whose name starts with "lxc"; a
     * deletion failure is only logged.
     */
    method ClearCiliumVeths(listing: Result<seq<Link>>, linkDel: Link -> Option<Error>)
      returns (err: Option<Error>, order: seq<int>)
      modifies this`log
      ensures listing.Err? ==> err == Some(InterfaceListFailed(listing.error)) && log == old(log)
      ensures listing.Ok? ==> (err == None
        && Enumerates(order, IndexLinks(listing.value, VethIndex).Keys)
        && log == old(log) + DeleteVeths(order, IndexLinks(listing.value, VethIndex), linkDel))
    {
      order := [];
      var leftVeths := ListFilterIfs(listing, VethIndex);
      if leftVeths.Err? {
        return Some(InterfaceListFailed(leftVeths.error)), order;
      }
      order := DeleteStaleVeths(leftVeths.value, linkDel);
      return None, order;
    }

    /** The deletion loop of clearCiliumVeths over the veth index, visited in `order`. */
    method DeleteStaleVeths(veths: map<int, Link>, linkDel: Link -> Option<Error>) returns (order: seq<int>)
      modifies this`log
      ensures Enumerates(order, veths.Keys)
      ensures log == old(log) + DeleteVeths(order, veths, linkDel)
    {
      order := IterationOrder(veths.Keys);
      for i := 0 to |order|
        invariant log == old(log) + DeleteVeths(order[..i], veths, linkDel)
      {
        assert order[..i + 1][..i] == order[..i];
        var v := veths[order[i]];
        var peerIndex := v.parentIndex;
        if peerIndex in veths && peerIndex != 0 && HasPrefix(veths[peerIndex].name, "lxc") {
          // a failed deletion is only logged
          var failure := linkDel(v);
          log := log + [LinkDel(v, failure)];
        }
      }
      assert order[..|order|] == order;
    }
  }

  /** What setupIPSec records: the route deletion without node encryption, then the key load when IPsec is on. */
  function IPSecEvents(cfg: Config, keys: Result<KeyLoad>): (ev: seq<Event>)
    ensures DeleteIPsecEncryptRoute in ev <==> !cfg.encryptNode
    ensures (exists e :: e in ev && e.LoadIPSecKeysFile?) <==> cfg.enableIPSec
    ensures forall e :: e in ev ==> e.DeleteIPsecEncryptRoute? || e == LoadIPSecKeysFile(cfg.ipsecKeyFile, keys)
  {
    var route := if !cfg.encryptNode then [DeleteIPsecEncryptRoute] else [];
    var load := if cfg.enableIPSec then [LoadIPSecKeysFile(cfg.ipsecKeyFile, keys)] else [];
    assert cfg.enableIPSec ==> LoadIPSecKeysFile(cfg.ipsecKeyFile, keys) in route + load;
    route + load
  }
}
