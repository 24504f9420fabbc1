/**
 * The peer table the discovery listener fills: address -> time last seen,
 * kept in the order the addresses were first seen (a Python dict keeps
 * insertion order, and the peer list shows the addresses in that order).
 * The clock and the node's own address are parameters.
 */
module Registry {

  import opened Common
  import opened Discovery

  /** A peer is shown while it was heard from less than two intervals ago. */
  const LIVENESS: nat := 2 * DISCOVERY_INTERVAL

  predicate Fresh(lastSeen: int, now: int)
  {
    now - lastSeen < LIVENESS
  }

  /** The address the listener records for datagram `msg`, if any. */
  function Accept(msg: string, selfIp: string): (ip: Option<string>)
    ensures ip.Some? <==> ParseAnnouncement(msg).Some? && ParseAnnouncement(msg).value != selfIp
    ensures ip.Some? ==> ip == ParseAnnouncement(msg) && ip.value != selfIp
  {
    match ParseAnnouncement(msg)
    case None => None
    case Some(peerIp) => if peerIp != selfIp then Some(peerIp) else None
  }

  /** `a` can be obtained from `b` by dropping elements: the order of `b` is kept. */
  predicate Subsequence<T(==)>(a: seq<T>, b: seq<T>)
    decreases |b|
  {
    if b == [] then a == []
    else (a != [] && a[0] == b[0] && Subsequence(a[1..], b[1..])) || Subsequence(a, b[1..])
  }

  /** The addresses of `order` that are fresh at `now`, in table order. */
  function ActiveView(order: seq<string>, peers: map<string, int>, now: int): (view: seq<string>)
    requires forall a :: a in order ==> a in peers
    ensures forall a :: a in view <==> a in order && Fresh(peers[a], now)
    ensures Subsequence(view, order)
    ensures NoDuplicates(order) ==> NoDuplicates(view)
    ensures |view| <= |order|
  {
    if order == [] then
      []
    else
      var rest := ActiveView(order[1..], peers, now);
      assert forall a :: a in order[1..] ==> a in order;
      if Fresh(peers[order[0]], now) then
        assert NoDuplicates(order) ==> order[0] !in order[1..];
        [order[0]] + rest
      else
        rest
  }

  class PeerRegistry {
    /** Address -> time of its latest announcement. */
    var peers: map<string, int>
    /** The addresses of `peers`, in the order they were first seen. */
    var order: seq<string>

    ghost predicate Valid()
      reads this
    {
      && NoDuplicates(order)
      && forall a :: a in order <==> a in peers
    }

    /** The table starts empty. */
    constructor ()
      ensures Valid()
      ensures peers == map[] && order == []
    {
      peers := map[];
      order := [];
    }

    /**
     * `self.peers[ip] = now`: an upsert. A repeat announcement only moves the
     * timestamp; a new address is added at the end; nothing is ever removed.
     */
    method Record(ip: string, now: int)
      requires Valid()
      modifies this
      ensures Valid()
      ensures peers == old(peers)[ip := now]
      ensures order == if ip in old(peers) then old(order) else old(order) + [ip]
    {
      if ip !in peers {
        order := order + [ip];
      }
      peers := peers[ip := now];
    }

    /**
     * One datagram arriving at the listener at time `now`: it is recorded when
     * it carries the prefix and its address is not this node's; otherwise the
     * table is untouched.
     */
    method Receive(msg: string, selfIp: string, now: int) returns (recorded: bool)
      requires Valid()
      modifies this
      ensures Valid()
      ensures recorded <==> Accept(msg, selfIp).Some?
      ensures recorded ==> peers == old(peers)[Accept(msg, selfIp).value := now]
      ensures recorded ==>
        order == if Accept(msg, selfIp).value in old(peers) then old(order) else old(order) + [Accept(msg, selfIp).value]
      ensures !recorded ==> peers == old(peers) && order == old(order)
      ensures old(peers).Keys <= peers.Keys
      ensures selfIp !in old(peers) ==> selfIp !in peers
    {
      var parsed := ParseAnnouncement(msg);
      recorded := false;
      if parsed.Some? {
        var peerIp := parsed.value;
        if peerIp != selfIp {
          Record(peerIp, now);
          recorded := true;
        }
      }
    }

    /**
     * The addresses shown in the peer list at `now`: exactly the fresh ones,
     * each once. Stale entries are hidden, not removed.
     */
    function ActivePeers(now: int): (view: seq<string>)
      reads this
      requires Valid()
      ensures forall a :: a in view <==> a in peers && Fresh(peers[a], now)
      ensures NoDuplicates(view)
      ensures Subsequence(view, order)
    {
      ActiveView(order, peers, now)
    }
  }

  /**
   * Right after an announcement from `ip` is recorded at `t`, `ip` is shown;
   * from `t + LIVENESS` on, without a newer announcement, it is hidden.
   */
  lemma RecordedPeerExpires(order: seq<string>, peers: map<string, int>, ip: string, t: int, later: int)
    requires forall a :: a in order <==> a in peers
    ensures var order' := if ip in peers then order else order + [ip];
      && ip in ActiveView(order', peers[ip := t], t)
      && (later >= t + LIVENESS ==> ip !in ActiveView(order', peers[ip := t], later))
  {
    var order' := if ip in peers then order else order + [ip];
    assert ip in order' by {
      if ip !in peers {
        assert order'[|order|] == ip;
      }
    }
  }

  /** The node's own address never shows, as long as every insert went through `Accept`. */
  lemma SelfNeverActive(order: seq<string>, peers: map<string, int>, selfIp: string, now: int)
    requires forall a :: a in order ==> a in peers
    requires selfIp !in peers
    ensures selfIp !in ActiveView(order, peers, now)
  {
  }

  /**
   * A node hears its own broadcast. The broadcaster announces the address the
   * host name resolves to, while the listener filters on the address of the
   * outgoing route; when the two differ the node's own announcement is accepted.
   */
  lemma OwnAnnouncementAcceptedWhenAddressesDiffer(hostIp: string, routeIp: string)
    requires SEP !in hostIp && hostIp != routeIp
    ensures Accept(Announcement(hostIp), routeIp) == Some(hostIp)
  {
    FormatParseRoundTrip(hostIp);
  }

  /** With one address for both roles, the node's own announcement is dropped. */
  lemma OwnAnnouncementDropped(selfIp: string, other: string)
    requires SEP !in selfIp && SEP !in other
    ensures Accept(Announcement(selfIp), selfIp) == None
    ensures Accept(Announcement(other), selfIp).Some? <==> other != selfIp
  {
  }
}
