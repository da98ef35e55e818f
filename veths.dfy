/**
 * Stale veth selection: listFilterIfs indexes the host's links through a
 * filter, and clearCiliumVeths deletes every veth whose peer, found in that
 * index, carries the agent's "lxc" name prefix.
 */
module Veths {
  import opened DatapathTypes

  /** The index map listFilterIfs builds, as its loop assigns it: a later link overwrites an earlier one. */
  function IndexLinks(links: seq<Link>, filter: Link -> int): map<int, Link>
  {
    if links == [] then map[]
    else
      var m := IndexLinks(links[..|links| - 1], filter);
      var last := links[|links| - 1];
      var idx := filter(last);
      if idx != -1 then m[idx := last] else m
  }

  /** The position of the last listed link the filter sends to `k`, or -1 when there is none. */
  function LastHit(links: seq<Link>, filter: Link -> int, k: int): (i: int)
    ensures -1 <= i < |links|
    ensures i >= 0 ==> filter(links[i]) == k && forall j :: i < j < |links| ==> filter(links[j]) != k
    ensures i == -1 ==> forall j :: 0 <= j < |links| ==> filter(links[j]) != k
  {
    if links == [] then -1
    else if filter(links[|links| - 1]) == k then |links| - 1
    else LastHit(links[..|links| - 1], filter, k)
  }

  /**
   * The keys of the index are exactly the filter results other than -1, and
   * each key maps to the last listed link the filter sends to it.
   */
  lemma {:induction false} IndexLinksExact(links: seq<Link>, filter: Link -> int)
    ensures var m := IndexLinks(links, filter);
      && (forall k :: k in m <==> k != -1 && LastHit(links, filter, k) >= 0)
      && (forall k :: k in m ==> m[k] == links[LastHit(links, filter, k)])
  {
    if links != [] {
      var init := links[..|links| - 1];
      IndexLinksExact(init, filter);
      forall k | LastHit(links, filter, k) != |links| - 1
        ensures LastHit(links, filter, k) == LastHit(init, filter, k)
      {
      }
      forall k | 0 <= LastHit(init, filter, k)
        ensures links[LastHit(init, filter, k)] == init[LastHit(init, filter, k)]
      {
      }
    }
  }

  /**
   * listFilterIfs: a listing error is returned unchanged; otherwise the map
   * from each non-(-1) filter result to the last listed link with that result.
   */
  method ListFilterIfs(listing: Result<seq<Link>>, filter: Link -> int) returns (r: Result<map<int, Link>>)
    ensures listing.Err? ==> r == Err(listing.error)
    ensures listing.Ok? ==> r == Ok(IndexLinks(listing.value, filter))
    ensures listing.Ok? ==> forall k :: k in r.value <==>
      k != -1 && exists i :: 0 <= i < |listing.value| && filter(listing.value[i]) == k
    ensures listing.Ok? ==> forall k :: k in r.value ==>
      var i := LastHit(listing.value, filter, k);
      0 <= i && r.value[k] == listing.value[i]
  {
    if listing.Err? {
      return Err(listing.error);
    }
    var ifs := listing.value;
    var vethLXCIdxs: map<int, Link> := map[];
    for i := 0 to |ifs|
      invariant vethLXCIdxs == IndexLinks(ifs[..i], filter)
    {
      assert ifs[..i + 1][..i] == ifs[..i];
      var idx := filter(ifs[i]);
      if idx != -1 {
        vethLXCIdxs := vethLXCIdxs[idx := ifs[i]];
      }
    }
    assert ifs[..|ifs|] == ifs;
    IndexLinksExact(ifs, filter);
    forall k | k != -1 && exists i :: 0 <= i < |ifs| && filter(ifs[i]) == k
      ensures k in vethLXCIdxs
    {
      var i :| 0 <= i < |ifs| && filter(ifs[i]) == k;
    }
    return Ok(vethLXCIdxs);
  }

  /** The filter clearCiliumVeths passes: a veth's own index, -1 for any other link. */
  function VethIndex(link: Link): (r: int)
    ensures r != -1 ==> link.linkType == "veth" && r == link.index
  {
    if link.linkType == "veth" then link.index else -1
  }

  predicate HasPrefix(s: string, prefix: string)
  {
    |prefix| <= |s| && s[..|prefix|] == prefix
  }

  /** A veth to delete: its peer index is non-zero and names a veth of the index whose name starts with "lxc". */
  predicate StaleVeth(veths: map<int, Link>, k: int)
  {
    k in veths &&
    var peerIndex := veths[k].parentIndex;
    peerIndex in veths && peerIndex != 0 && HasPrefix(veths[peerIndex].name, "lxc")
  }

  /** The deletion one visited key causes. */
  function DeleteVeth(veths: map<int, Link>, k: int, linkDel: Link -> Option<Error>): seq<Event>
  {
    if StaleVeth(veths, k) then [LinkDel(veths[k], linkDel(veths[k]))] else []
  }

  /** The deletion loop of clearCiliumVeths, visiting the index in `order`. */
  function DeleteVeths(order: seq<int>, veths: map<int, Link>, linkDel: Link -> Option<Error>): seq<Event>
  {
    if order == [] then []
    else DeleteVeths(order[..|order| - 1], veths, linkDel) + DeleteVeth(veths, order[|order| - 1], linkDel)
  }

  /** The loop deletes the stale veths it visits, recording each deletion's outcome, and issues nothing else. */
  lemma {:induction false} DeleteVethsExact(order: seq<int>, veths: map<int, Link>, linkDel: Link -> Option<Error>)
    ensures var ev := DeleteVeths(order, veths, linkDel);
      && (forall e :: e in ev ==> e.LinkDel? && e.failure == linkDel(e.link))
      && (forall l :: LinkDel(l, linkDel(l)) in ev <==> exists k :: k in order && StaleVeth(veths, k) && veths[k] == l)
  {
    if order != [] {
      var init := order[..|order| - 1];
      DeleteVethsExact(init, veths, linkDel);
      assert order == init + [order[|order| - 1]];
    }
  }

  /**
   * What clearCiliumVeths deletes, over all listed links: exactly the links
   * the index holds whose peer index is non-zero, indexes a veth, and that
   * veth's name starts with "lxc"; every deleted link is a listed veth.
   */
  lemma ClearedVeths(links: seq<Link>, order: seq<int>, linkDel: Link -> Option<Error>)
    requires Enumerates(order, IndexLinks(links, VethIndex).Keys)
    ensures var veths := IndexLinks(links, VethIndex);
      var ev := DeleteVeths(order, veths, linkDel);
      && (forall l :: LinkDel(l, linkDel(l)) in ev <==> exists k :: StaleVeth(veths, k) && veths[k] == l)
      && (forall e :: e in ev ==> e.LinkDel? && e.link in links && e.link.linkType == "veth")
  {
    var veths := IndexLinks(links, VethIndex);
    var ev := DeleteVeths(order, veths, linkDel);
    DeleteVethsExact(order, veths, linkDel);
    IndexLinksExact(links, VethIndex);
    forall e | e in ev
      ensures e.LinkDel? && e.link in links && e.link.linkType == "veth"
    {
      assert LinkDel(e.link, linkDel(e.link)) == e;
      var k :| k in order && StaleVeth(veths, k) && veths[k] == e.link;
      var i := LastHit(links, VethIndex, k);
      assert links[i] == e.link;
    }
  }
}
