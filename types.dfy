/**
 * Values shared by the datapath bootstrap and reconciliation model: addresses,
 * identity pairs, endpoint-map entries, network links, the agent configuration
 * that this core reads, and the events recorded for every operation on the
 * kernel maps, the identity cache and netlink.
 */
module DatapathTypes {

  newtype uint8 = x: int | 0 <= x < 0x100
  newtype uint32 = x: int | 0 <= x < 0x1_0000_0000

  const TwoTo32: int := 0x1_0000_0000

  /** Go's uint32(x) conversion of an int: keeps the low 32 bits (two's complement), by moving x a step of 2^32 at a time. */
  function ToUint32(x: int): uint32
    decreases if x < 0 then TwoTo32 - x else x
  {
    if 0 <= x < TwoTo32 then x as uint32
    else if x < 0 then ToUint32(x + TwoTo32)
    else ToUint32(x - TwoTo32)
  }

  /**
   * The conversion wraps around: the result differs from its argument by a
   * multiple of 2^32, and a value already in range is kept.
   */
  lemma {:induction false} ToUint32Wraps(x: int)
    ensures (ToUint32(x) as int - x) % TwoTo32 == 0
    ensures 0 <= x < TwoTo32 ==> ToUint32(x) as int == x
    decreases if x < 0 then TwoTo32 - x else x
  {
    if x < 0 {
      ToUint32Wraps(x + TwoTo32);
      assert ToUint32(x) as int - x == (ToUint32(x + TwoTo32) as int - (x + TwoTo32)) + TwoTo32;
    } else if x >= TwoTo32 {
      ToUint32Wraps(x - TwoTo32);
      assert ToUint32(x) as int - x == (ToUint32(x - TwoTo32) as int - (x - TwoTo32)) - TwoTo32;
    }
  }

  datatype Option<T> = None | Some(value: T)
  datatype Result<T> = Ok(value: T) | Err(error: Error)

  /** Errors. Those returned by collaborators outside the model are opaque. */
  datatype Error =
    | Foreign(what: string)
      /** "Unable to add host entry to endpoint map: %s" */
    | HostEntryFailed(cause: Error)
      /** "unable to retrieve host network interfaces: %s" */
    | InterfaceListFailed(cause: Error)

  /** net.IP: a byte slice (4 or 16 bytes; empty when absent). */
  type IP = seq<uint8>

  /** net.CIDRMask(ones, bits). */
  datatype CIDRMask = CIDRMask(ones: nat, bits: nat)

  /** identity.NumericIdentity. */
  newtype NumericIdentity = x: int | 0 <= x < 0x1_0000_0000

  /** The reserved identities this core binds (identity.ReservedIdentityHost / World). */
  const ReservedIdentityHost: NumericIdentity := 1
  const ReservedIdentityWorld: NumericIdentity := 2

  /** identity.IPIdentityPair: an address, an optional mask, and an identity. */
  datatype IPIdentityPair = IPIdentityPair(ip: IP, mask: Option<CIDRMask>, id: NumericIdentity)

  /** source.Source: who owns an identity-cache entry. */
  datatype Source = Local | KVStore | KubeAPIServer

  /** ipcache.Identity: the value of an identity-cache entry. */
  datatype CacheIdentity = CacheIdentity(id: NumericIdentity, source: Source)

  /** ipcache.K8sMetadata attached to an address. */
  datatype K8sMetadata = K8sMetadata(namespace: string, podName: string)

  /** lxcmap.EndpointInfo, reduced to what this core reads: whether it is a host entry. */
  datatype EndpointInfo = EndpointInfo(isHost: bool)

  /** netlink.Link, reduced to the attributes this core reads. */
  datatype Link = Link(name: string, linkType: string, index: int, parentIndex: int)

  datatype Family = IPv4 | IPv6

  /** The two connection-tracking map kinds per family (TCP and any other protocol). */
  datatype CtKind = CtTCP | CtAny

  /** A connection-tracking map belongs to one endpoint or is global. */
  datatype CtScope = CtGlobal | CtLocal(endpointID: nat)

  /** One open/create/initialise step of the map bootstrap. */
  datatype MapStep =
    | OpenLxcMap
    | OpenIPCacheParallel
    | OpenMetricsMap
    | OpenTunnelMap
    | OpenEgressMap
    | InitServiceMaps(ipv6: bool, ipv4: bool, sockRevNat: bool, restore: bool)
    | InitEventsMap(cpus: nat)
    | InitSignalMap(cpus: nat)
    | InitPolicyCallMap
    | InitEndpointMap(endpointID: nat)
    | CreateCtMap(scope: CtScope, family: Family, kind: CtKind)
    | CreateNatMap(family: Family)
    | InitNeighborsMaps(ipv4: bool, ipv6: bool)
    | InitFragmentsMap(entries: int)
    | SetIPCacheListeners
    | OpenIPMasq4Map
    | RegisterController(name: string, intervalSeconds: nat)
    | DeleteAllLxcEntries
    | OpenAffinityMatchMap
    | OpenAffinityMap(family: Family)
    | OpenSourceRangeMap(family: Family)
    | InitMaglevMaps(ipv4: bool, ipv6: bool, tableSize: uint32)

  /** What LoadIPSecKeysFile returns on success. */
  datatype KeyLoad = KeyLoad(authKeySize: int, spi: uint8)

  /** One recorded operation on the kernel maps, the identity cache or netlink. */
  datatype Event =
      // endpoint map (lxcmap)
    | LxcDumpToMap
    | LxcSyncHostEntry(ip: IP, outcome: Result<bool>)
    | LxcDeleteEntry(ip: IP, failure: Option<Error>)
      // identity cache; an upsert is keyed by the pair's prefix string
    | CacheUpsert(prefix: IPIdentityPair, hostKey: uint8, meta: Option<K8sMetadata>, identity: CacheIdentity)
    | CacheDelete(key: string, source: Source)
    | IPCacheEndParallelMode
      // netlink
    | LinkDel(link: Link, failure: Option<Error>)
      // map bootstrap
    | MapStepRan(step: MapStep, failure: Option<Error>)
      // IPsec
    | DeleteIPsecEncryptRoute
    | LoadIPSecKeysFile(path: string, loaded: Result<KeyLoad>)

  datatype NodePortAlgorithm = NodePortAlgRandom | NodePortAlgMaglev

  /** The fields of option.Config that this core reads. */
  datatype Config = Config(
    dryMode: bool,
    enableIPv4: bool,
    enableIPv6: bool,
    externalWorkload: bool,
    isExcludedLocalAddress: IP -> bool,
    enableHostReachableServices: bool,
    enableHostServicesUDP: bool,
    restoreState: bool,
    enableNodePort: bool,
    enableIPv4FragmentsTracking: bool,
    fragmentsMapEntries: int,
    enableIPMasqAgent: bool,
    enableSessionAffinity: bool,
    enableSVCSourceRangeCheck: bool,
    nodePortAlg: NodePortAlgorithm,
    maglevTableSize: int,
    encryptNode: bool,
    enableIPSec: bool,
    ipsecKeyFile: string)

  /** `order` lists every element of `keys` exactly once: one iteration order of a Go map. */
  ghost predicate Enumerates<K(!new)>(order: seq<K>, keys: set<K>)
  {
    && (forall k :: k in order <==> k in keys)
    && (forall i, j :: 0 <= i < j < |order| ==> order[i] != order[j])
  }

  /** The order in which a Go `range` loop visits a map's keys: every key once, in an order the model does not fix. */
  method IterationOrder<K(==,!new)>(keys: set<K>) returns (order: seq<K>)
    ensures Enumerates(order, keys)
  {
    order := [];
    var remaining := keys;
    while remaining != {}
      invariant remaining <= keys
      invariant Enumerates(order, keys - remaining)
      decreases |remaining|
    {
      var k :| k in remaining;
      EnumeratesAppend(order, keys - remaining, k);
      assert keys - (remaining - {k}) == (keys - remaining) + {k};
      order := order + [k];
      remaining := remaining - {k};
    }
    assert keys - remaining == keys;
  }

  /** Visiting one more key extends the enumeration. */
  lemma EnumeratesAppend<K(!new)>(order: seq<K>, keys: set<K>, k: K)
    requires Enumerates(order, keys) && k !in keys
    ensures Enumerates(order + [k], keys + {k})
  {
    forall i, j | 0 <= i < j < |order + [k]|
      ensures (order + [k])[i] != (order + [k])[j]
    {
      if j == |order| {
        assert order[i] in keys;
      }
    }
  }
}
