/**
 * The list of special IP-to-identity pairs that syncEndpointsAndHostIPs
 * computes before it touches any map: a host pair for every usable local
 * address of each enabled family, followed by that family's world wildcard.
 */
module SpecialIdentities {
  import opened DatapathTypes

  /** What LocalAddresses() returns: the addresses, and an error that is only logged. */
  datatype LocalAddresses = LocalAddresses(addrs: seq<IP>, err: Option<Error>)

  /** net.IPv4zero: 0.0.0.0 in Go's 16-byte IPv4-in-IPv6 form. */
  const IPv4Zero: IP := [0, 0, 0, 0, 0, 0, 0, 0, 0, 0, 0xff, 0xff, 0, 0, 0, 0]
  /** net.IPv6zero: ::. */
  const IPv6Zero: IP := [0, 0, 0, 0, 0, 0, 0, 0, 0, 0, 0, 0, 0, 0, 0, 0]

  /** 0.0.0.0/0 bound to the world identity. */
  const World4: IPIdentityPair := IPIdentityPair(IPv4Zero, Some(CIDRMask(0, 4 * 8)), ReservedIdentityWorld)
  /** ::/0 bound to the world identity. */
  const World6: IPIdentityPair := IPIdentityPair(IPv6Zero, Some(CIDRMask(0, 16 * 8)), ReservedIdentityWorld)

  /** A local address gets a host pair when it is not excluded and not empty. */
  predicate Usable(ip: IP, excluded: IP -> bool)
  {
    !excluded(ip) && |ip| > 0
  }

  /** The host pair of an address: no mask, the reserved host identity. */
  function HostPair(ip: IP): IPIdentityPair
  {
    IPIdentityPair(ip, None, ReservedIdentityHost)
  }

  /** The host pairs one family contributes, built as the loop appends them. */
  function HostPairs(addrs: seq<IP>, excluded: IP -> bool): seq<IPIdentityPair>
  {
    if addrs == [] then []
    else
      var last := addrs[|addrs| - 1];
      HostPairs(addrs[..|addrs| - 1], excluded) + (if Usable(last, excluded) then [HostPair(last)] else [])
  }

  /** The IPv6 inputs: the listed local addresses followed by the router address. */
  function IPv6Inputs(ipv6: LocalAddresses, router: IP): seq<IP>
  {
    ipv6.addrs + [router]
  }

  /** The specification of the list syncEndpointsAndHostIPs builds. */
  function Special(cfg: Config, ipv4: LocalAddresses, ipv6: LocalAddresses, router: IP): seq<IPIdentityPair>
  {
    (if cfg.enableIPv4 then HostPairs(ipv4.addrs, cfg.isExcludedLocalAddress) + [World4] else [])
    + (if cfg.enableIPv6 then HostPairs(IPv6Inputs(ipv6, router), cfg.isExcludedLocalAddress) + [World6] else [])
  }

  /** Reference definition: the usable addresses, in input order (filter from the front). */
  function UsableAddrs(addrs: seq<IP>, excluded: IP -> bool): seq<IP>
  {
    if addrs == [] then []
    else (if Usable(addrs[0], excluded) then [addrs[0]] else []) + UsableAddrs(addrs[1..], excluded)
  }

  lemma {:induction false} UsableAddrsAppend(addrs: seq<IP>, ip: IP, excluded: IP -> bool)
    ensures UsableAddrs(addrs + [ip], excluded)
         == UsableAddrs(addrs, excluded) + (if Usable(ip, excluded) then [ip] else [])
  {
    if addrs == [] {
      assert addrs + [ip] == [ip];
    } else {
      assert (addrs + [ip])[1..] == addrs[1..] + [ip];
      UsableAddrsAppend(addrs[1..], ip, excluded);
    }
  }

  /** HostPairs binds exactly the usable addresses, one pair per occurrence, in input order. */
  lemma {:induction false} HostPairsInOrder(addrs: seq<IP>, excluded: IP -> bool)
    ensures var u := UsableAddrs(addrs, excluded);
      && |HostPairs(addrs, excluded)| == |u|
      && forall i :: 0 <= i < |u| ==> HostPairs(addrs, excluded)[i] == HostPair(u[i])
  {
    if addrs != [] {
      var init, last := addrs[..|addrs| - 1], addrs[|addrs| - 1];
      assert addrs == init + [last];
      HostPairsInOrder(init, excluded);
      UsableAddrsAppend(init, last, excluded);
    }
  }

  /** A pair is in HostPairs iff it is the host pair of a usable listed address. */
  lemma {:induction false} HostPairsMembers(addrs: seq<IP>, excluded: IP -> bool)
    ensures forall p :: p in HostPairs(addrs, excluded) <==>
      p.id == ReservedIdentityHost && p.mask == None && p.ip in addrs && Usable(p.ip, excluded)
  {
    if addrs != [] {
      var init, last := addrs[..|addrs| - 1], addrs[|addrs| - 1];
      assert addrs == init + [last];
      HostPairsMembers(init, excluded);
    }
  }

  /**
   * Layout of the special list: host pairs are exactly those of the usable
   * addresses of the enabled families (IPv6 including the router address);
   * each enabled family has exactly one world wildcard, placed after that
   * family's host pairs; IPv4 pairs precede IPv6 pairs. The listing errors
   * play no part.
   */
  lemma SpecialLayout(cfg: Config, ipv4: LocalAddresses, ipv6: LocalAddresses, router: IP)
    ensures var r := Special(cfg, ipv4, ipv6, router);
      var ex := cfg.isExcludedLocalAddress;
      var w4 := if cfg.enableIPv4 then |HostPairs(ipv4.addrs, ex)| else -1;
      && (forall i :: 0 <= i < |r| ==>
            (r[i].id == ReservedIdentityWorld <==> i == w4 || (cfg.enableIPv6 && i == |r| - 1)))
      && (cfg.enableIPv4 ==> r[w4] == World4)
      && (cfg.enableIPv6 ==> r[|r| - 1] == World6)
      && (forall i :: 0 <= i < w4 ==> r[i] in HostPairs(ipv4.addrs, ex))
      && (forall i :: w4 < i < |r| - 1 ==> r[i] in HostPairs(IPv6Inputs(ipv6, router), ex))
      && (forall p: IPIdentityPair :: p.id == ReservedIdentityHost ==> (p in r <==>
            || (cfg.enableIPv4 && p.mask == None && p.ip in ipv4.addrs && Usable(p.ip, ex))
            || (cfg.enableIPv6 && p.mask == None && p.ip in IPv6Inputs(ipv6, router) && Usable(p.ip, ex))))
  {
    var ex := cfg.isExcludedLocalAddress;
    HostPairsMembers(ipv4.addrs, ex);
    HostPairsMembers(IPv6Inputs(ipv6, router), ex);
    var h4, h6 := HostPairs(ipv4.addrs, ex), HostPairs(IPv6Inputs(ipv6, router), ex);
    var a := if cfg.enableIPv4 then h4 + [World4] else [];
    var b := if cfg.enableIPv6 then h6 + [World6] else [];
    var r := Special(cfg, ipv4, ipv6, router);
    assert r == a + b;
    forall i | 0 <= i < |r|
      ensures r[i].id == ReservedIdentityWorld <==>
        i == (if cfg.enableIPv4 then |h4| else -1) || (cfg.enableIPv6 && i == |r| - 1)
    {
      if i < |a| {
        assert r[i] == a[i];
        if i < |a| - 1 { assert r[i] in h4; }
      } else {
        assert r[i] == b[i - |a|];
        if i < |r| - 1 { assert b[i - |a|] in h6; }
      }
    }
    forall p: IPIdentityPair | p.id == ReservedIdentityHost
      ensures p in r <==> (cfg.enableIPv4 && p in h4) || (cfg.enableIPv6 && p in h6)
    {
      if cfg.enableIPv4 && p in h4 { assert p in a; }
      if cfg.enableIPv6 && p in h6 { assert p in b; }
    }
  }

  /** The IPv4 host pairs come first, the IPv6 host pairs sit between the two world pairs. */
  lemma SpecialSegments(cfg: Config, ipv4: LocalAddresses, ipv6: LocalAddresses, router: IP)
    ensures var r := Special(cfg, ipv4, ipv6, router);
      var ex := cfg.isExcludedLocalAddress;
      var w4 := if cfg.enableIPv4 then |HostPairs(ipv4.addrs, ex)| else -1;
      && (cfg.enableIPv4 ==> r[..w4] == HostPairs(ipv4.addrs, ex))
      && (cfg.enableIPv6 ==> r[w4 + 1..|r| - 1] == HostPairs(IPv6Inputs(ipv6, router), ex))
  {
  }

  /** A failure to list a family's addresses changes nothing in the special list. */
  lemma SpecialIgnoresListingErrors(cfg: Config, ipv4: LocalAddresses, ipv6: LocalAddresses, router: IP,
                                    e4: Option<Error>, e6: Option<Error>)
    ensures Special(cfg, LocalAddresses(ipv4.addrs, e4), LocalAddresses(ipv6.addrs, e6), router)
         == Special(cfg, ipv4, ipv6, router)
  {
  }

  /**
   * The loops of syncEndpointsAndHostIPs that build specialIdentities: for
   * each enabled family, append a host pair per usable address (IPv6 also
   * considers the router address), then the family's world wildcard.
   */
  method CollectSpecialIdentities(cfg: Config, ipv4: LocalAddresses, ipv6: LocalAddresses, router: IP)
    returns (special: seq<IPIdentityPair>)
    ensures special == Special(cfg, ipv4, ipv6, router)
  {
    special := [];
    if cfg.enableIPv4 {
      // a listing error is only logged; the returned addresses are still used
      special := AppendHostPairs(special, ipv4.addrs, cfg.isExcludedLocalAddress);
      special := special + [World4];
    }
    if cfg.enableIPv6 {
      special := AppendHostPairs(special, ipv6.addrs + [router], cfg.isExcludedLocalAddress);
      special := special + [World6];
    }
  }

  /** One family's loop: append a host pair for each address that is neither excluded nor empty. */
  method AppendHostPairs(special: seq<IPIdentityPair>, addrs: seq<IP>, excluded: IP -> bool)
    returns (r: seq<IPIdentityPair>)
    ensures r == special + HostPairs(addrs, excluded)
  {
    r := special;
    for i := 0 to |addrs|
      invariant r == special + HostPairs(addrs[..i], excluded)
    {
      assert addrs[..i + 1][..i] == addrs[..i];
      var ip := addrs[i];
      if excluded(ip) {
        continue;
      }
      if |ip| > 0 {
        r := r + [HostPair(ip)];
      }
    }
    assert addrs[..|addrs|] == addrs;
  }
}
