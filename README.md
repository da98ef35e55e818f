# Cilium agent datapath bootstrap and host-IP reconciliation

This project models the core of the agent's `daemon/cmd/datapath.go` in Dafny:

- **`syncEndpointsAndHostIPs`** builds the ordered list of special IP-to-identity pairs:
  - a host pair for every usable local address of each enabled family (IPv6 also considers the router address);
  - the family's world wildcard after that family's host pairs.

  It then dumps the endpoint map (lxcmap) into a snapshot and walks the pairs in order:
  - a host pair is first synced into the endpoint map, and a failed sync ends the run;
  - every pair's key leaves the snapshot;
  - every pair is upserted into the identity cache (ipcache) with source Local.

  Finally it deletes every leftover snapshot entry that is host-tagged and whose key parses as an IP, from the endpoint map and then from the identity cache. The k8s metadata is carried from pair to pair, as the one variable declared before the loop is.
- **`listFilterIfs` / `clearCiliumVeths`** index the host's veths by their own index. They then delete every veth whose peer index is non-zero and names an indexed veth whose name starts with `lxc`.
- **`initMaps`** opens and creates the BPF maps in a fixed, configuration-dependent order. It stops at the first step whose error it returns, or treats as fatal.
- **`setupIPSec`** loads the IPsec key file and stores the SPI as the node's key identity.
- **`endParallelMapMode`** ends the ipcache's parallel mode.

The kernel maps, the identity cache and netlink are an ordered log of events: the field `log` of the class `Daemon.Daemon`. The node's IPsec key identity is a second field of that class. `setupIPSec` writes it and `syncEndpointsAndHostIPs` reads it. The result of every call into code outside this file is a parameter:

- local address listings, the IPv6 router address (`node.GetIPv6Router`), the endpoint-map dump, `SyncHostEntry`, `DeleteEntry`, `GetK8sMetadata`, `IP.String` and `net.ParseIP` (`EndpointSync.SyncEnv`);
- the probe result, the CPU count, the two endpoint lists (one per `GetEndpoints()` call) and each map step's outcome (`Bootstrap.BootEnv`);
- the link listing and `LinkDel` (parameters of `ClearCiliumVeths`);
- the key-file load (a parameter of `SetupIPSec`).

Go's map iteration order is unspecified, so each loop over a Go map visits the keys in an order chosen by `DatapathTypes.IterationOrder`. The methods return that order, and their logs are functions of it. Every method is proved against a specification function, and the source's promises are lemmas about those functions.

Modules:

| module | file | contents |
|---|---|---|
| `DatapathTypes` | types.dfy | values, the event type, the configuration, 32-bit wrap-around, map iteration order |
| `SpecialIdentities` | special_identities.dfy | the special pair list, its layout, the method that builds it |
| `EndpointSync` | endpoint_sync.dfy | the upsert pass, the eviction, the whole reconciliation run, and their properties |
| `Veths` | veths.dfy | the link index and the stale-veth rule |
| `Bootstrap` | bootstrap.dfy | the initMaps plan, the step executor, and their properties |
| `Daemon` | daemon.dfy | the class whose methods perform the operations against the log |

## Model

| member | source | states |
|---|---|---|
| DatapathTypes.ToUint32Wraps | daemon/cmd/datapath.go:456 | Go's `uint32(x)` differs from `x` by a multiple of 2^32, and it keeps a value already in range |
| DatapathTypes.ToUint32 | daemon/cmd/datapath.go:456 | definition of Go's `uint32(x)` on an int: moves x by steps of 2^32 until it is in range; characterised by ToUint32Wraps |
| DatapathTypes.IterationOrder | daemon/cmd/datapath.go:272 | a `range` over a Go map visits every key exactly once |
| SpecialIdentities.HostPairsInOrder | daemon/cmd/datapath.go:185-197 | a family's loop produces exactly one host pair per usable address (not excluded, non-empty), in input order |
| SpecialIdentities.HostPairsMembers | daemon/cmd/datapath.go:185-197 | a pair is produced iff it is the unmasked host pair of a listed usable address |
| SpecialIdentities.HostPairs | daemon/cmd/datapath.go:185-197 | definition of one family's loop: for each address, in order, a host pair when the address is neither excluded nor empty; characterised by HostPairsInOrder and HostPairsMembers |
| SpecialIdentities.Special | daemon/cmd/datapath.go:177-234 | definition of the special list: with IPv4 enabled, its host pairs then 0.0.0.0/0; with IPv6 enabled, the host pairs of its addresses followed by the router address, then ::/0; characterised by SpecialLayout |
| SpecialIdentities.SpecialLayout | daemon/cmd/datapath.go:179-234 | the world identity appears exactly at each enabled family's wildcard slot: 0.0.0.0/0 right after the IPv4 host pairs, ::/0 last. IPv4 pairs precede IPv6 pairs. A host pair is in the list iff its address is usable and listed for an enabled family, with the router address among the IPv6 inputs |
| SpecialIdentities.SpecialSegments | daemon/cmd/datapath.go:179-234 | with IPv4 enabled the list starts with exactly the IPv4 host pairs, in order, before 0.0.0.0/0. With IPv6 enabled, exactly the IPv6 host pairs, in order and with the router address among the inputs, sit between that slot and the final ::/0 |
| SpecialIdentities.SpecialIgnoresListingErrors | daemon/cmd/datapath.go:180-211 | an error from listing a family's local addresses changes nothing in the list: the addresses returned alongside it are used, and the wildcard is still appended |
| SpecialIdentities.CollectSpecialIdentities | daemon/cmd/datapath.go:177-234 | the appending loops build exactly the specified special list |
| SpecialIdentities.AppendHostPairs | daemon/cmd/datapath.go:185-197 | one family's loop appends exactly that family's host pairs to the list so far |
| EndpointSync.FirstFailedHost | daemon/cmd/datapath.go:244-249 | reference definition: the position of the first host pair whose SyncHostEntry fails. Every earlier pair's sync succeeds |
| EndpointSync.LastHost | daemon/cmd/datapath.go:254-259 | reference definition: the position of the last host pair, with no host pair after it |
| EndpointSync.CarriedMeta | daemon/cmd/datapath.go:241-259 | definition of the carried k8s metadata: none outside external-workload mode, otherwise the cache's metadata for the address string of the latest host pair so far (a world pair inherits it); characterised by ReconcileMeta |
| EndpointSync.HostSyncs | daemon/cmd/datapath.go:244-249 | reference definition: one endpoint-map sync per host pair, in list order, each with that address's own outcome; a world pair adds none |
| EndpointSync.Visited | daemon/cmd/datapath.go:242-249 | the number of pairs the pass visits: up to and including the first failing host pair, all of them when none fails |
| EndpointSync.Visit | daemon/cmd/datapath.go:243-269 | definition of one upsert iteration: a host pair is synced first and a failed sync ends the pass with the wrapped error; in external-workload mode a host pair replaces the carried metadata with the cache's; then the key leaves the snapshot and the pair is upserted with the node key, the carried metadata and source Local |
| EndpointSync.Reconcile | daemon/cmd/datapath.go:241-270 | definition of the upsert loop over the pairs from the dumped snapshot, with the metadata starting empty, stopping at the first failure; characterised by ReconcileFailure, ReconcileUpserts, ReconcileHostSyncs, ReconcileSyncThenUpsert, ReconcileMeta and ReconcileRemaining |
| EndpointSync.ReconcileHalted | daemon/cmd/datapath.go:246-249 | once a host sync has failed, the later pairs change nothing |
| EndpointSync.ReconcileFailure | daemon/cmd/datapath.go:244-249 | the pass fails iff some host pair's sync fails, and then with the first such pair's error wrapped as "Unable to add host entry" |
| EndpointSync.ReconcileFailedLast | daemon/cmd/datapath.go:246-248 | a failed pass ends with the failed SyncHostEntry of the first failing host pair |
| EndpointSync.ReconcileMeta | daemon/cmd/datapath.go:241-259 | while the pass has not failed, the carried k8s metadata is that of the latest host pair in external-workload mode, and none otherwise |
| EndpointSync.VisitUpserts | daemon/cmd/datapath.go:262-269 | an iteration that does not fail adds exactly one upsert: the pair's, with the metadata it carries |
| EndpointSync.VisitFailsUpserts | daemon/cmd/datapath.go:246-249 | an iteration whose host sync fails adds no upsert |
| EndpointSync.ReconcileUpserts | daemon/cmd/datapath.go:242-270 | the pass upserts, in list order, every pair before the first failing host pair (all pairs when none fails). Each upsert has source Local, the node key, and the metadata carried from the latest host pair |
| EndpointSync.VisitSyncs | daemon/cmd/datapath.go:243-269 | an iteration only appends to the log, and the endpoint-map syncs it adds are exactly its pair's: one for a host pair, none for a world pair |
| EndpointSync.VisitSyncThenUpsert | daemon/cmd/datapath.go:245-269 | in an iteration over a host pair whose sync succeeds, the sync is immediately followed by the pair's upsert |
| EndpointSync.ReconcileHostSyncs | daemon/cmd/datapath.go:242-249 | the pass writes into the endpoint map exactly the host pairs among the visited pairs, in list order, each with its own outcome; when a host pair fails, its sync is the last of them |
| EndpointSync.ReconcileSyncThenUpsert | daemon/cmd/datapath.go:244-269 | each host pair before the first failing one is synced into the endpoint map, and immediately afterwards upserted into the cache with the metadata carried so far |
| EndpointSync.ReconcileRemaining | daemon/cmd/datapath.go:262 | a completed pass leaves the snapshot minus exactly the pairs' keys, other entries unchanged. The pass records only host syncs and upserts |
| EndpointSync.EvictDeletes | daemon/cmd/datapath.go:272-284 | eviction deletes from the cache, with source Local, exactly the visited stale keys (host-tagged, parseable), and from the endpoint map exactly their parsed addresses |
| EndpointSync.EvictPairs | daemon/cmd/datapath.go:274-282 | each stale key's endpoint-map deletion is immediately followed by its cache deletion |
| EndpointSync.EvictOnlyDeletes | daemon/cmd/datapath.go:272-284 | eviction records deletions only |
| EndpointSync.EvictKey | daemon/cmd/datapath.go:273-283 | definition of one eviction iteration: for a host-tagged entry whose key parses, delete the parsed address from the endpoint map, then the key from the cache with source Local; nothing otherwise |
| EndpointSync.Evict | daemon/cmd/datapath.go:272-284 | definition of the eviction loop over the leftover keys in the visiting order; characterised by EvictDeletes and EvictPairs |
| EndpointSync.Sync | daemon/cmd/datapath.go:172-287 | definition of the whole run: nothing in dry mode, the dump error after the dump, otherwise SyncFrom of the special list |
| EndpointSync.SyncFrom | daemon/cmd/datapath.go:236-286 | definition of the run past the dump: the dump, the upsert pass, and the eviction of what the pass left unless it failed; characterised by SyncFromUpserts and SyncFromEvicts |
| EndpointSync.SyncEarlyExits | daemon/cmd/datapath.go:173-239 | dry mode performs nothing and returns nil. A failed dump returns its error, with the dump as the only operation |
| EndpointSync.SyncUpserts | daemon/cmd/datapath.go:242-270 | past the dump, the run upserts the special pairs in order, up to the first failing host pair. The run returns that pair's wrapped error, and otherwise nil. On failure the failed sync is the last operation, and nothing was deleted. The run's endpoint-map syncs are exactly those of the visited host pairs, in order, and each host pair before the failing one is upserted right after its sync |
| EndpointSync.SyncFromUpserts | daemon/cmd/datapath.go:242-270 | the same, for any pair list |
| EndpointSync.SyncFromHostSyncs | daemon/cmd/datapath.go:236-286 | the syncs of a run past the dump, and their adjacency to the upserts, are those of its upsert pass: neither the dump nor the eviction syncs |
| EndpointSync.LeftoverStale | daemon/cmd/datapath.go:262-273 | the stale keys the eviction loop visits are exactly the dump's entries that are host-tagged, parse as an IP, and are the key of no special pair |
| EndpointSync.SyncEvents | daemon/cmd/datapath.go:236-284 | a run that reaches eviction records the dump, the pass (no deletion), then the eviction, and returns nil |
| EndpointSync.SyncStaleDeletion | daemon/cmd/datapath.go:262-284 | such a run deletes a cache entry iff it is a stale dumped host entry, always with source Local; non-host entries, unparseable keys and special-pair keys are never deleted |
| EndpointSync.SyncStaleEndpointDeletion | daemon/cmd/datapath.go:272-274 | such a run deletes from the endpoint map exactly the parsed addresses of the stale entries |
| EndpointSync.SyncDeletesDespiteFailures | daemon/cmd/datapath.go:274-282 | for every stale entry the cache deletion directly follows the endpoint-map deletion, whether or not that failed |
| EndpointSync.SyncFromEvicts | daemon/cmd/datapath.go:274-282 | the same, for any pair list |
| Veths.LastHit | daemon/cmd/datapath.go:100-104 | the last listed link the filter sends to a key, or -1 when none is |
| Veths.IndexLinks | daemon/cmd/datapath.go:99-104 | definition of the index loop: each listed link whose filter result is not -1 is stored under that result, later links overwriting earlier ones; characterised by IndexLinksExact |
| Veths.IndexLinksExact | daemon/cmd/datapath.go:99-104 | the index's keys are exactly the filter results other than -1. Each key holds the last listed link with that result |
| Veths.ListFilterIfs | daemon/cmd/datapath.go:94-106 | a listing error is returned unchanged. Otherwise the map has exactly those keys, each holding the last matching link |
| Veths.VethIndex | daemon/cmd/datapath.go:113-119 | a non-(-1) result is a veth's own index |
| Veths.StaleVeth | daemon/cmd/datapath.go:126-128 | definition of the deletion rule: the peer index is in the index, non-zero, and that veth's name starts with `lxc` |
| Veths.DeleteVeths | daemon/cmd/datapath.go:125-134 | definition of the deletion loop over the index in the visiting order, each deletion recording its outcome; characterised by DeleteVethsExact |
| Veths.DeleteVethsExact | daemon/cmd/datapath.go:125-134 | the loop deletes exactly the visited veths whose peer index is non-zero, indexed, and names an `lxc` veth. Each deletion records its own outcome |
| Veths.ClearedVeths | daemon/cmd/datapath.go:110-136 | over a whole listing, exactly the stale veths are deleted, and every deleted link is a listed veth |
| Bootstrap.Attempt | daemon/cmd/datapath.go:297-424 | each attempted step records itself with its outcome. A step that returns no error (`SetListeners` at 401-403, the controller registration at 413-418) records none |
| Bootstrap.Halts | daemon/cmd/datapath.go:297-424 | definition of a step that ends initMaps: its error is returned or fatal, and it failed |
| Bootstrap.Verdict | daemon/cmd/datapath.go:297-334 | definition of how a halting step ends initMaps: a `svc.InitMaps` failure exits the agent (`Aborted`), any other error is returned |
| Bootstrap.FirstHalting | daemon/cmd/datapath.go:297-459 | reference definition: the first step whose error is returned or fatal; no earlier step halts |
| Bootstrap.PolicyOf | daemon/cmd/datapath.go:297-424 | what initMaps does with each step's error: `svc.InitMaps` is fatal (333), `ep.InitMap` (351) and `LXCMap.DeleteAll` (423) errors are discarded, `SetListeners` (401-403) and the controller registration (413-418) return none, every other step returns its error at once |
| Bootstrap.Exec | daemon/cmd/datapath.go:297-461 | definition of the step-by-step run: each step is attempted in order, and the first one whose error is returned or fatal ends the run with that verdict; characterised by ExecFirstHalting and ExecFailure |
| Bootstrap.Stages | daemon/cmd/datapath.go:297-459 | definition of the plan's order: the endpoint map and the ipcache in parallel mode; metrics, tunnel, egress, service, events, signal and policy-call maps; endpoint maps, local and global conntrack maps, NAT maps; then the feature-dependent steps |
| Bootstrap.InitPlan | daemon/cmd/datapath.go:297-459 | the stages one after the other; characterised by PlanParts and the Plan lemmas |
| Bootstrap.ExecHalted | daemon/cmd/datapath.go:297-299 | after an early return, no later step runs |
| Bootstrap.ExecFirstHalting | daemon/cmd/datapath.go:297-461 | a run executes the plan's steps in order, up to and including the first that halts, and nothing else. It ends with that step's verdict, or returns nil |
| Bootstrap.ExecRunsPlanSteps | daemon/cmd/datapath.go:297-461 | every recorded step is a planned step |
| Bootstrap.ExecRunsPlanned | daemon/cmd/datapath.go:297-461 | a step runs only if planned, and every planned step runs when none halts |
| Bootstrap.ExecFailure | daemon/cmd/datapath.go:331-424 | a failing returned or fatal step is the last to run. Only the service maps' failure aborts the agent. Endpoint-map initialisation and the endpoint-map wipe never stop the run |
| Bootstrap.CtMapsMembers | daemon/cmd/datapath.go:365-370 | a scope's conntrack maps are TCP and any-protocol, per enabled family |
| Bootstrap.EndpointStepsMembers | daemon/cmd/datapath.go:350-352 | one endpoint-map initialisation per known endpoint |
| Bootstrap.LocalCtStepsMembers | daemon/cmd/datapath.go:354-364 | local conntrack maps only for endpoints with local conntrack, per enabled family |
| Bootstrap.EndpointAndCtKinds | daemon/cmd/datapath.go:350-383 | the per-endpoint and global part plans endpoint maps, conntrack maps and NAT maps only |
| Bootstrap.NatStepsMembers | daemon/cmd/datapath.go:372-383 | a NAT map per enabled family, only with NodePort |
| Bootstrap.NodePortExtraStepsExact | daemon/cmd/datapath.go:385-396 | neighbors only with NodePort, fragments only with fragment tracking, with the configured arguments |
| Bootstrap.HousekeepingStepsExact | daemon/cmd/datapath.go:398-424 | listeners and the metrics controller always, masquerading with IPv4 and the agent, the wipe without restore |
| Bootstrap.AffinityStepsExact | daemon/cmd/datapath.go:426-440 | affinity maps only with session affinity, per enabled family |
| Bootstrap.SourceRangeStepsExact | daemon/cmd/datapath.go:442-453 | source-range maps only with the check, per enabled family |
| Bootstrap.LbStepsExact | daemon/cmd/datapath.go:426-459 | the load-balancer steps are exactly those the reference definition admits |
| Bootstrap.FeatureStepsExact | daemon/cmd/datapath.go:385-459 | the feature-dependent steps are exactly those the reference definition admits |
| Bootstrap.PlanParts | daemon/cmd/datapath.go:297-459 | a step is planned iff it belongs to one of the plan's stages |
| Bootstrap.PlanFeatureStep | daemon/cmd/datapath.go:385-459 | a feature step is planned iff its flag holds and its arguments are the configured ones |
| Bootstrap.PlanServiceMaps | daemon/cmd/datapath.go:327-334 | the service maps are always initialised, with both families' flags, the restore flag, and reverse-NAT socket maps iff host-reachable UDP services and LRU maps |
| Bootstrap.PlanNatMaps | daemon/cmd/datapath.go:372-383 | NAT maps iff NodePort and the family is enabled |
| Bootstrap.PlanNodePortExtras | daemon/cmd/datapath.go:385-396 | neighbor maps iff NodePort; fragments map iff fragment tracking, with its size |
| Bootstrap.PlanListenersAndController | daemon/cmd/datapath.go:401-418 | the listeners are always set, and the metrics controller is always registered at a 5-second interval |
| Bootstrap.PlanMasqAndWipe | daemon/cmd/datapath.go:405-424 | the masquerading map iff IPv4 and the agent; `DeleteAll` iff state is not restored |
| Bootstrap.PlanAffinityMaps | daemon/cmd/datapath.go:426-440 | the match map iff session affinity; a family's map iff affinity and the family |
| Bootstrap.PlanSourceRangeMaps | daemon/cmd/datapath.go:442-453 | a family's map iff the check and the family |
| Bootstrap.PlanMaglevMaps | daemon/cmd/datapath.go:455-459 | Maglev maps iff the Maglev algorithm, sized by the table size converted to 32 bits |
| Bootstrap.PlanStartsWithLxcThenIPCache | daemon/cmd/datapath.go:297-313 | the plan opens the endpoint map, then the ipcache in parallel mode, and neither again |
| Bootstrap.LaterStagesOpen | daemon/cmd/datapath.go:315-459 | no later stage opens the endpoint map or the ipcache |
| Bootstrap.EndpointAndCtCtMap | daemon/cmd/datapath.go:354-370 | a conntrack map is planned iff its family is enabled and, if local, its endpoint uses local conntrack |
| Bootstrap.PlanCtMaps | daemon/cmd/datapath.go:354-370 | the same over the whole plan |
| Bootstrap.InitRun | daemon/cmd/datapath.go:292-462 | definition of initMaps: nothing in dry mode (293-295), otherwise the plan executed step by step; characterised by InitDry, InitOpensLxcBeforeIPCache and ExecFirstHalting |
| Bootstrap.InitDry | daemon/cmd/datapath.go:293-295 | dry mode runs no step and returns nil |
| Bootstrap.InitOpensLxcBeforeIPCache | daemon/cmd/datapath.go:297-313 | every run not in dry mode first opens the endpoint map. The ipcache is opened, second, only if that open succeeded |
| Bootstrap.ExecOpensInOrder | daemon/cmd/datapath.go:297-313 | the same, for any plan that starts with those two steps |
| Daemon.Daemon.SyncEndpointsAndHostIPs | daemon/cmd/datapath.go:172-287 | the log grows by exactly the specified run, and the returned error is the run's. When the run reaches eviction, the leftover entries are visited once each |
| Daemon.Daemon.SyncSnapshot | daemon/cmd/datapath.go:241-286 | after the dump: the upsert pass, and the eviction unless the pass failed |
| Daemon.Daemon.UpsertSpecialIdentities | daemon/cmd/datapath.go:241-270 | the upsert loop records exactly the pass and returns its failure and, if none, the remaining snapshot |
| Daemon.Daemon.VisitSpecialIdentity | daemon/cmd/datapath.go:243-269 | one iteration records exactly one visit of the pass |
| Daemon.Daemon.DeleteStaleHostEntries | daemon/cmd/datapath.go:272-284 | the deletion loop visits every leftover key once and records exactly the eviction |
| Daemon.Daemon.InitMaps | daemon/cmd/datapath.go:292-462 | the log grows by exactly the plan's run, and the result is its verdict |
| Daemon.Daemon.EndParallelMapMode | daemon/cmd/datapath.go:165-167 | records the end of the ipcache's parallel mode |
| Daemon.Daemon.SetupIPSec | daemon/cmd/datapath.go:464-479 | (0, 0, nil) with IPsec disabled. (0, 0, err) when the key load fails, and the key identity is unchanged in both cases. Otherwise the loaded key size and SPI, and the SPI becomes the node's key identity |
| Daemon.Daemon.ClearCiliumVeths | daemon/cmd/datapath.go:110-136 | a listing error is wrapped and nothing is deleted. Otherwise nil, after visiting the veth index once each and deleting exactly the stale veths |
| Daemon.Daemon.DeleteStaleVeths | daemon/cmd/datapath.go:125-134 | the deletion loop visits every indexed veth once and records exactly the specified deletions |
| Daemon.IPSecEvents | daemon/cmd/datapath.go:465-473 | the route is deleted iff node encryption is off; the key file is loaded iff IPsec is on; nothing else happens |

Notes on the model:

- Only host pairs go through the endpoint map. World wildcards reach the identity cache only. The dump is of the whole endpoint map, and eviction filters it by the host flag.
- Every special pair is upserted, whether or not the cache already holds it.
- The addresses returned together with a listing error are used as if the listing had succeeded.
- A failed `SyncHostEntry` is recorded with its outcome, and the run returns right after it.
- `initMaps` is modelled as a plan (`Bootstrap.InitPlan`) that one loop executes. Each step has a policy:
  - returned error: every open/create/init call with an early return;
  - fatal: `svc.InitMaps`, which ends the agent (`Aborted`);
  - ignored: `ep.InitMap`, `LXCMap.DeleteAll`;
  - no error: `SetListeners`, the controller registration.

## Left out

- `LocalConfig`, `createNodeConfigHeaderfile`, `deleteHostDevice`, `RemoveMapPath`, `RemoveDatapathMapping`, `SetPrefilter` and `Datapath`: channel waits, file I/O, netlink and filesystem calls, and trivial accessors, with no logic of their own to model.
- test/k8sT/Spiffe.go: an end-to-end cluster scenario with nothing to model.
- The metrics-sync controller's goroutine and timer: the controller is registered as one plan step, and its periodic runs are concurrency outside this file.
- The internals of the ipcache's parallel mode, of `EndParallelMode`, of the listener fan-out and of the lxcmap and ipcache implementations: each call is one recorded event.
- `ctmap.LocalMaps`, `ctmap.GlobalMaps` and `nat.GlobalMaps` are not part of this model. Their results are modelled as a TCP map and an any-protocol map per enabled family, and a NAT map per enabled family only with NodePort.
- The reserved identities' values (host 1, world 2) come from the identity package, which is not part of this model.
- `IP.String` and `net.ParseIP` are parameters, and no injectivity of `IP.String` is assumed. `PrefixString` is not modelled: a cache upsert records the pair itself rather than its prefix string.
- Each foreign call is a function of its arguments alone (`SyncHostEntry`, `DeleteEntry`, `GetK8sMetadata`, `LinkDel`, each map step's open/create/init): calling it twice with the same argument gives the same result, as for a duplicated address or two stale keys that parse to the same IP. No state behind those calls is modelled.
- Logging (warnings and debug messages) is not modelled, apart from the fatal exit, which is `Aborted`. The "added" flag of `SyncHostEntry` is recorded in the outcome of each `LxcSyncHostEntry` event; only the debug message it triggers is dropped.
- The probe manager, the CPU count, the endpoint manager's list, IPsec key-file parsing and route deletion are foreign calls: their results are inputs.
- Concurrency with other users of the maps and the cache is not modelled: each operation runs alone against the log.
