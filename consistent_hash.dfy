/**
 * The consistent hash ring used by the load balancer front end: a fixed
 * table of `slots` entries, each empty or holding a server id, and a table
 * of servers with the hostname and the slots recorded for each. Every
 * server gets `virtualServers` replicas, placed by a polynomial hash and
 * linear probing; a request goes to the first occupied slot clockwise from
 * its own hash.
 */
module ConsistentHashing {
  import opened Options
  import opened SlotScan

  /** What the ring records about a server: its hostname and the slots its replicas occupy. */
  datatype ServerInfo = ServerInfo(hostname: string, virtualPositions: seq<nat>)

  type Servers = map<int, ServerInfo>

  /** A problem reported by the integrity check. */
  datatype Issue =
    | OrphanedServer(serverId: int, pos: nat)
    | InvalidVirtualPosition(pos: nat, serverId: int)

  /** The statistics `get_ring_status` reports. */
  datatype RingStatus = RingStatus(
    totalSlots: nat,
    occupiedSlots: nat,
    freeSlots: nat,
    serverCount: nat,
    virtualServersPerPhysical: nat,
    servers: Servers)

  // ---------------------------------------------------------------------
  // Placement hashing

  /** H(i) = i² + 2i + 17, reduced to a slot. */
  function HashRequest(slots: nat, requestId: int): (pos: nat)
    requires slots > 0
    ensures pos < slots
  {
    (requestId * requestId + 2 * requestId + 17) % slots
  }

  /** Φ(i, j) = i² + j² + 2j + 25, reduced to a slot. */
  function HashVirtualServer(slots: nat, serverId: int, virtualId: int): (pos: nat)
    requires slots > 0
    ensures pos < slots
  {
    (serverId * serverId + virtualId * virtualId + 2 * virtualId + 25) % slots
  }

  // ---------------------------------------------------------------------
  // The invariant of the ring

  /** Every occupied slot names a known server. */
  ghost predicate NoOrphans(ring: seq<Slot>, servers: Servers)
  {
    forall p :: 0 <= p < |ring| && ring[p].Some? ==> ring[p].value in servers
  }

  /** Slot `p` exists and holds server `id`. */
  ghost predicate PointsBack(ring: seq<Slot>, id: int, p: nat)
  {
    p < |ring| && ring[p] == Some(id)
  }

  /** Every recorded position of every server lies on the ring and holds that server. */
  ghost predicate BackReferences(ring: seq<Slot>, servers: Servers)
  {
    forall id, k :: id in servers && 0 <= k < |servers[id].virtualPositions| ==>
      PointsBack(ring, id, servers[id].virtualPositions[k])
  }

  /** The condition `validate_ring_integrity` checks. */
  ghost predicate Integrity(ring: seq<Slot>, servers: Servers)
  {
    NoOrphans(ring, servers) && BackReferences(ring, servers)
  }

  /** Every occupied slot is among the positions recorded for its server. */
  ghost predicate Recorded(ring: seq<Slot>, servers: Servers)
  {
    forall p :: 0 <= p < |ring| && ring[p].Some? && ring[p].value in servers ==>
      p in servers[ring[p].value].virtualPositions
  }

  ghost predicate Distinct(ps: seq<nat>)
  {
    forall i, j :: 0 <= i < j < |ps| ==> ps[i] != ps[j]
  }

  /** Every server has exactly `v` replicas, at pairwise distinct positions. */
  ghost predicate FullReplicas(servers: Servers, v: nat)
  {
    forall id :: id in servers ==>
      |servers[id].virtualPositions| == v && Distinct(servers[id].virtualPositions)
  }

  /**
   * The invariant of every state the public operations leave behind: the
   * integrity condition, the converse back-reference, complete replica
   * sets, and hence `v` occupied slots per server.
   */
  ghost predicate WellFormed(ring: seq<Slot>, servers: Servers, v: nat)
  {
    && Integrity(ring, servers)
    && Recorded(ring, servers)
    && FullReplicas(servers, v)
    && FreeCount(ring) + v * |servers| == |ring|
  }

  /** `order` lists the keys of `servers` once each: the dictionary's insertion order. */
  ghost predicate KeyOrder(order: seq<int>, servers: Servers)
  {
    && (forall i, j :: 0 <= i < j < |order| ==> order[i] != order[j])
    && (forall i :: 0 <= i < |order| ==> order[i] in servers)
    && (forall id :: id in servers ==> id in order)
  }

  /** The key order after `del servers[id]`: `id` dropped, the rest in order. */
  function RemoveKey(order: seq<int>, id: int): (r: seq<int>)
    ensures forall x :: x in r <==> x in order && x != id
  {
    if order == [] then []
    else RemoveKey(order[..|order| - 1], id) + (if order[|order| - 1] == id then [] else [order[|order| - 1]])
  }

  /** The table with server `id` written into the slots `ps`. */
  function Fill(ring: seq<Slot>, ps: seq<nat>, id: int): (r: seq<Slot>)
    ensures |r| == |ring|
    ensures forall p :: 0 <= p < |ring| ==> r[p] == (if p in ps then Some(id) else ring[p])
  {
    seq(|ring|, p requires 0 <= p < |ring| => if p in ps then Some(id) else ring[p])
  }

  /** The table with the slots `ps` emptied. */
  function ClearAt(ring: seq<Slot>, ps: seq<nat>): (r: seq<Slot>)
    ensures |r| == |ring|
    ensures forall p :: 0 <= p < |ring| ==> r[p] == (if p in ps then None else ring[p])
  {
    seq(|ring|, p requires 0 <= p < |ring| => if p in ps then None else ring[p])
  }

  /** The positions `ps` are pairwise distinct slots that are empty in `ring`. */
  ghost predicate FreshPlacement(ring: seq<Slot>, ps: seq<nat>)
  {
    Distinct(ps) && forall k :: 0 <= k < |ps| ==> ps[k] < |ring| && ring[ps[k]].None?
  }

  /**
   * Replica `j` of server `id` sits where linear probing from Φ(id, j) led,
   * in the table holding the replicas placed before it.
   */
  ghost predicate Probed(before: seq<Slot>, id: int, ps: seq<nat>)
    requires |before| > 0
  {
    forall j :: 0 <= j < |ps| ==>
      NextFree(Fill(before, ps[..j], id), HashVirtualServer(|before|, id, j)) == Some(ps[j])
  }

  /** The hostname a request starting at slot `start` is routed to. */
  function Lookup(ring: seq<Slot>, servers: Servers, start: nat): (r: Option<string>)
    requires |ring| > 0 && start < |ring|
    requires NoOrphans(ring, servers)
    ensures r.Some? ==> exists id :: id in servers && servers[id].hostname == r.value
  {
    if |servers| == 0 then None
    else match Owner(ring, start)
      case None => None
      case Some(id) => Some(servers[id].hostname)
  }

  /** What the integrity check reports is a real violation. */
  ghost predicate Violation(ring: seq<Slot>, servers: Servers, issue: Issue)
  {
    match issue
    case OrphanedServer(id, p) => p < |ring| && ring[p] == Some(id) && id !in servers
    case InvalidVirtualPosition(p, id) =>
      id in servers && p in servers[id].virtualPositions && !PointsBack(ring, id, p)
  }

  // ---------------------------------------------------------------------
  // Lemmas about the invariant

  /** Any reported violation contradicts integrity. */
  lemma ViolationBreaksIntegrity(ring: seq<Slot>, servers: Servers, issue: Issue)
    requires Violation(ring, servers, issue)
    ensures !Integrity(ring, servers)
  {
    match issue
    case OrphanedServer(id, p) =>
    case InvalidVirtualPosition(p, id) =>
      var k :| 0 <= k < |servers[id].virtualPositions| && servers[id].virtualPositions[k] == p;
  }

  /** In a well-formed ring the slots of a server are exactly its recorded positions. */
  lemma SlotsOfServer(ring: seq<Slot>, servers: Servers, v: nat, id: int)
    requires WellFormed(ring, servers, v)
    requires id in servers
    ensures forall p :: 0 <= p < |ring| ==> (ring[p] == Some(id) <==> p in servers[id].virtualPositions)
  {
    forall p | 0 <= p < |ring| && p in servers[id].virtualPositions
      ensures ring[p] == Some(id)
    {
      var k :| 0 <= k < |servers[id].virtualPositions| && servers[id].virtualPositions[k] == p;
    }
  }

  /** The key order stays a key order when a new server is appended. */
  lemma KeyOrderAdd(order: seq<int>, servers: Servers, id: int, info: ServerInfo)
    requires KeyOrder(order, servers) && id !in servers
    ensures KeyOrder(order + [id], servers[id := info])
  {
    var order' := order + [id];
    forall x | x in servers[id := info] ensures x in order' {
      if x != id {
        assert x in order;
      } else {
        assert order'[|order|] == id;
      }
    }
  }

  /** Dropping a key from the order keeps the others in order, once each. */
  lemma {:induction false} RemoveKeyDistinct(order: seq<int>, id: int)
    requires forall i, j :: 0 <= i < j < |order| ==> order[i] != order[j]
    ensures var r := RemoveKey(order, id); forall i, j :: 0 <= i < j < |r| ==> r[i] != r[j]
  {
    if order != [] {
      var init := order[..|order| - 1];
      RemoveKeyDistinct(init, id);
      var last := order[|order| - 1];
      assert last !in init;
      assert last !in RemoveKey(init, id);
    }
  }

  /** The key order stays a key order when a server is deleted. */
  lemma KeyOrderRemove(order: seq<int>, servers: Servers, id: int)
    requires KeyOrder(order, servers)
    ensures KeyOrder(RemoveKey(order, id), servers - {id})
  {
    RemoveKeyDistinct(order, id);
    var r := RemoveKey(order, id);
    forall i | 0 <= i < |r| ensures r[i] in servers - {id} {
      assert r[i] in r;
    }
  }

  /** Deleting an absent key changes nothing. */
  lemma {:induction false} RemoveKeyAbsent(order: seq<int>, id: int)
    requires id !in order
    ensures RemoveKey(order, id) == order
  {
    if order != [] {
      RemoveKeyAbsent(order[..|order| - 1], id);
    }
  }

  /** Updating a key twice keeps the second value only. */
  lemma Overwrite(servers: Servers, id: int, a: ServerInfo, b: ServerInfo)
    ensures servers[id := a][id := b] == servers[id := b]
  {
  }

  /** Deleting a key that was just appended restores the order. */
  lemma RemoveKeyAppended(order: seq<int>, id: int)
    requires id !in order
    ensures RemoveKey(order + [id], id) == order
  {
    assert (order + [id])[..|order|] == order;
    RemoveKeyAbsent(order, id);
  }

  /**
   * One round of the placement loop: the slot the probe finds extends a
   * fresh, probed placement by one, and there is one free slot less.
   */
  lemma PlaceStep(ring0: seq<Slot>, id: int, ps: seq<nat>, p: nat)
    requires |ring0| > 0
    requires FreshPlacement(ring0, ps) && Probed(ring0, id, ps)
    requires NextFree(Fill(ring0, ps, id), HashVirtualServer(|ring0|, id, |ps|)) == Some(p)
    ensures FreshPlacement(ring0, ps + [p]) && Probed(ring0, id, ps + [p])
    ensures Fill(ring0, ps, id)[p := Some(id)] == Fill(ring0, ps + [p], id)
    ensures FreeCount(Fill(ring0, ps + [p], id)) + 1 == FreeCount(Fill(ring0, ps, id))
  {
    var before := Fill(ring0, ps, id);
    NextFreeFound(before, HashVirtualServer(|ring0|, id, |ps|), p);
    FreeCountUpdate(before, p, Some(id));
    assert p !in ps;
    ProbedExtend(ring0, id, ps, p);
    assert before[p := Some(id)] == Fill(ring0, ps + [p], id);
  }

  /** The probe condition of earlier replicas is untouched by appending one more. */
  lemma ProbedExtend(ring0: seq<Slot>, id: int, ps: seq<nat>, p: nat)
    requires |ring0| > 0 && Probed(ring0, id, ps)
    requires NextFree(Fill(ring0, ps, id), HashVirtualServer(|ring0|, id, |ps|)) == Some(p)
    ensures Probed(ring0, id, ps + [p])
  {
    var ps' := ps + [p];
    assert ps'[..|ps|] == ps;
    forall m | 0 <= m < |ps'|
      ensures NextFree(Fill(ring0, ps'[..m], id), HashVirtualServer(|ring0|, id, m)) == Some(ps'[m])
    {
      if m < |ps| {
        assert ps'[..m] == ps[..m];
      }
    }
  }

  /** Emptying the slots a placement filled restores the table. */
  lemma ClearFill(ring: seq<Slot>, ps: seq<nat>, id: int)
    requires FreshPlacement(ring, ps)
    ensures ClearAt(Fill(ring, ps, id), ps) == ring
  {
    var r := ClearAt(Fill(ring, ps, id), ps);
    forall p | 0 <= p < |ring| ensures r[p] == ring[p] {
      if p in ps {
        var k :| 0 <= k < |ps| && ps[k] == p;
      }
    }
  }

  /** Evicting a server that was absent before a placement restores the table. */
  lemma EvictFill(ring: seq<Slot>, ps: seq<nat>, id: int)
    requires FreshPlacement(ring, ps)
    requires forall p :: 0 <= p < |ring| ==> ring[p] != Some(id)
    ensures Evict(Fill(ring, ps, id), id) == ring
  {
    var r := Evict(Fill(ring, ps, id), id);
    forall p | 0 <= p < |ring| ensures r[p] == ring[p] {
      if p in ps {
        var k :| 0 <= k < |ps| && ps[k] == p;
      }
    }
  }

  /** A successful placement of a new server keeps the ring well formed. */
  lemma AddPreserves(ring: seq<Slot>, servers: Servers, v: nat, id: int, hostname: string, ps: seq<nat>)
    requires WellFormed(ring, servers, v)
    requires id !in servers
    requires |ps| == v && FreshPlacement(ring, ps)
    ensures WellFormed(Fill(ring, ps, id), servers[id := ServerInfo(hostname, ps)], v)
  {
    FillFreeCount(ring, ps, id);
    var ring' := Fill(ring, ps, id);
    var servers' := servers[id := ServerInfo(hostname, ps)];
    AddKeepsBackReferences(ring, servers, id, hostname, ps);
    AddKeepsRecorded(ring, servers, id, hostname, ps);
    assert Integrity(ring', servers');
    assert FullReplicas(servers', v);
    assert |servers'| == |servers| + 1;
    MulSucc(v, |servers|);
  }

  /** Filling fresh slots takes one free slot each. */
  lemma {:induction false} FillFreeCount(ring: seq<Slot>, ps: seq<nat>, id: int)
    requires FreshPlacement(ring, ps)
    ensures FreeCount(Fill(ring, ps, id)) + |ps| == FreeCount(ring)
  {
    if ps != [] {
      var init := ps[..|ps| - 1];
      var p := ps[|ps| - 1];
      assert ps == init + [p];
      assert FreshPlacement(ring, init);
      FillFreeCount(ring, init, id);
      assert p !in init;
      FreeCountUpdate(Fill(ring, init, id), p, Some(id));
      assert Fill(ring, init, id)[p := Some(id)] == Fill(ring, ps, id);
    } else {
      assert Fill(ring, ps, id) == ring;
    }
  }

  /** Emptying distinct occupied slots frees one slot each. */
  lemma {:induction false} ClearFreeCount(ring: seq<Slot>, ps: seq<nat>)
    requires Distinct(ps) && forall k :: 0 <= k < |ps| ==> ps[k] < |ring| && ring[ps[k]].Some?
    ensures FreeCount(ClearAt(ring, ps)) == FreeCount(ring) + |ps|
  {
    if ps != [] {
      var init := ps[..|ps| - 1];
      var p := ps[|ps| - 1];
      assert ps == init + [p];
      ClearFreeCount(ring, init);
      assert p !in init;
      FreeCountUpdate(ClearAt(ring, init), p, None);
      assert ClearAt(ring, init)[p := None] == ClearAt(ring, ps);
    } else {
      assert ClearAt(ring, ps) == ring;
    }
  }

  lemma MulSucc(v: nat, n: nat)
    ensures v * (n + 1) == v * n + v
  {
  }

  lemma AddKeepsBackReferences(ring: seq<Slot>, servers: Servers, id: int, hostname: string, ps: seq<nat>)
    requires BackReferences(ring, servers)
    requires FreshPlacement(ring, ps)
    ensures BackReferences(Fill(ring, ps, id), servers[id := ServerInfo(hostname, ps)])
  {
    var ring' := Fill(ring, ps, id);
    var servers' := servers[id := ServerInfo(hostname, ps)];
    forall x, k | x in servers' && 0 <= k < |servers'[x].virtualPositions|
      ensures PointsBack(ring', x, servers'[x].virtualPositions[k])
    {
      var q := servers'[x].virtualPositions[k];
      if x != id {
        assert PointsBack(ring, x, q);
      }
    }
  }

  lemma AddKeepsRecorded(ring: seq<Slot>, servers: Servers, id: int, hostname: string, ps: seq<nat>)
    requires NoOrphans(ring, servers) && Recorded(ring, servers)
    requires id !in servers
    ensures NoOrphans(Fill(ring, ps, id), servers[id := ServerInfo(hostname, ps)])
    ensures Recorded(Fill(ring, ps, id), servers[id := ServerInfo(hostname, ps)])
  {
  }

  /** Evicting a server through its recorded positions keeps the rest of the ring well formed. */
  lemma RemovePreserves(ring: seq<Slot>, servers: Servers, v: nat, id: int)
    requires WellFormed(ring, servers, v)
    requires id in servers
    ensures WellFormed(Evict(ring, id), servers - {id}, v)
  {
    EvictFreeCount(ring, servers, v, id);
    var servers' := servers - {id};
    assert |servers'| == |servers| - 1;
    assert v * |servers| == v * |servers'| + v;
  }

  /** Evicting a server frees its `v` slots. */
  lemma EvictFreeCount(ring: seq<Slot>, servers: Servers, v: nat, id: int)
    requires WellFormed(ring, servers, v)
    requires id in servers
    ensures FreeCount(Evict(ring, id)) == FreeCount(ring) + v
  {
    var ps := servers[id].virtualPositions;
    EvictIsClearAt(ring, servers, v, id);
    forall k | 0 <= k < |ps| ensures ps[k] < |ring| && ring[ps[k]].Some? {
      assert PointsBack(ring, id, ps[k]);
    }
    ClearFreeCount(ring, ps);
  }

  /** One round of `remove_server`'s loop: the next recorded slot is on the ring, still full, and gets emptied. */
  lemma ClearStep(ring0: seq<Slot>, servers: Servers, v: nat, id: int, i: nat)
    requires WellFormed(ring0, servers, v) && id in servers
    requires i < |servers[id].virtualPositions|
    ensures var ps := servers[id].virtualPositions;
      ps[i] < |ring0|
      && ClearAt(ring0, ps[..i])[ps[i] := None] == ClearAt(ring0, ps[..i + 1])
      && FreeCount(ClearAt(ring0, ps[..i])[ps[i] := None]) == FreeCount(ClearAt(ring0, ps[..i])) + 1
  {
    var ps := servers[id].virtualPositions;
    assert PointsBack(ring0, id, ps[i]);
    assert ps[i] !in ps[..i];
    FreeCountUpdate(ClearAt(ring0, ps[..i]), ps[i], None);
    assert ps[..i + 1] == ps[..i] + [ps[i]];
  }

  /** Removing server `id` leaves its recorded slots empty and nothing else changed. */
  lemma EvictIsClearAt(ring: seq<Slot>, servers: Servers, v: nat, id: int)
    requires WellFormed(ring, servers, v)
    requires id in servers
    ensures Evict(ring, id) == ClearAt(ring, servers[id].virtualPositions)
  {
    SlotsOfServer(ring, servers, v, id);
  }

  /**
   * Lookup on a well-formed ring finds nothing exactly when there is no
   * server, or when servers are placed with no replicas at all.
   */
  lemma LookupNone(ring: seq<Slot>, servers: Servers, v: nat, start: nat)
    requires WellFormed(ring, servers, v)
    requires start < |ring|
    ensures Lookup(ring, servers, start).None? <==> |servers| == 0 || v == 0
  {
    OwnerSpec(ring, start);
    FreeCountAll(ring);
    if v > 0 && |servers| > 0 {
      assert v * |servers| > 0;
    }
  }

  /**
   * Minimal disruption on removal: every request that was not routed to the
   * removed server is still routed to the same hostname.
   */
  lemma LookupAfterRemove(ring: seq<Slot>, servers: Servers, v: nat, id: int, start: nat)
    requires WellFormed(ring, servers, v)
    requires id in servers && start < |ring|
    requires Owner(ring, start) != Some(id)
    ensures Lookup(Evict(ring, id), servers - {id}, start) == Lookup(ring, servers, start)
  {
    OwnerAfterEvict(ring, id, start);
  }

  /**
   * Minimal disruption on addition: every request that the new server does
   * not take is still routed to the hostname it went to before.
   */
  lemma LookupAfterAdd(ring: seq<Slot>, servers: Servers, v: nat, id: int, info: ServerInfo, start: nat)
    requires WellFormed(ring, servers, v)
    requires id !in servers && start < |ring|
    requires FreshPlacement(ring, info.virtualPositions)
    requires Owner(Fill(ring, info.virtualPositions, id), start) != Some(id)
    ensures Lookup(Fill(ring, info.virtualPositions, id), servers[id := info], start) == Lookup(ring, servers, start)
  {
    var ring' := Fill(ring, info.virtualPositions, id);
    EvictFill(ring, info.virtualPositions, id);
    OwnerAfterEvict(ring', id, start);
    if |servers| == 0 {
      FreeCountAll(ring);
      OwnerSpec(ring, start);
    }
  }

  /** Removing a server right after adding it gives back the table and the server map. */
  lemma RemoveUndoesAdd(ring: seq<Slot>, servers: Servers, v: nat, id: int, info: ServerInfo)
    requires WellFormed(ring, servers, v)
    requires id !in servers
    requires FreshPlacement(ring, info.virtualPositions)
    ensures Evict(Fill(ring, info.virtualPositions, id), id) == ring
    ensures servers[id := info] - {id} == servers
  {
    EvictFill(ring, info.virtualPositions, id);
  }

  // ---------------------------------------------------------------------
  // The ring object

  class ConsistentHash {
    const slots: nat
    const virtualServers: nat
    const ring: array<Slot>
    var servers: Servers
    /** The keys of `servers` in insertion order, as Python's dict keeps them. */
    var order: seq<int>

    /** The shape every ring object has: the table has `slots` entries, and the key order lists the servers. */
    ghost predicate Shaped()
      reads this
    {
      ring.Length == slots && slots > 0 && KeyOrder(order, servers)
    }

    /** The object invariant. */
    ghost predicate Valid()
      reads this, ring
    {
      Shaped() && WellFormed(ring[..], servers, virtualServers)
    }

    constructor (slots: nat := 512, virtualServers: nat := 9)
      requires slots > 0
      ensures Valid() && fresh(ring)
      ensures this.slots == slots && this.virtualServers == virtualServers
      ensures Empty(ring[..]) && servers == map[] && order == []
    {
      this.slots := slots;
      this.virtualServers := virtualServers;
      ring := new Slot[slots](_ => None);
      servers := map[];
      order := [];
      new;
      FreeCountAll(ring[..]);
    }

    /** `_find_next_available_slot`: the linear probe. */
    method FindNextAvailableSlot(start: nat) returns (pos: Option<nat>)
      requires ring.Length == slots && slots > 0 && start < slots
      ensures pos == NextFree(ring[..], start)
      ensures pos.None? <==> Full(ring[..])
      ensures pos.Some? ==> pos.value < slots && ring[pos.value].None?
    {
      NextFreeNone(ring[..], start);
      var i := 0;
      while i < slots
        invariant 0 <= i <= slots
        invariant FirstFrom(ring[..], start, false, i) == FirstFrom(ring[..], start, false, 0)
      {
        var p := (start + i) % slots;
        if ring[p].None? {
          return Some(p);
        }
        i := i + 1;
      }
      return None;
    }

    /** `_rollback_server_addition`: empty the slots recorded for a server and delete it. */
    method RollbackServerAddition(serverId: int)
      requires ring.Length == slots
      requires serverId in servers ==>
        forall k :: 0 <= k < |servers[serverId].virtualPositions| ==> servers[serverId].virtualPositions[k] < slots
      modifies this, ring
      ensures serverId !in old(servers) ==>
        ring[..] == old(ring[..]) && servers == old(servers) && order == old(order)
      ensures serverId in old(servers) ==>
        && ring[..] == ClearAt(old(ring[..]), old(servers[serverId].virtualPositions))
        && servers == old(servers) - {serverId}
        && order == RemoveKey(old(order), serverId)
    {
      if serverId in servers {
        var positions := servers[serverId].virtualPositions;
        var i := 0;
        while i < |positions|
          invariant 0 <= i <= |positions|
          invariant servers == old(servers) && order == old(order)
          invariant ring[..] == ClearAt(old(ring[..]), positions[..i])
        {
          assert positions[..i + 1] == positions[..i] + [positions[i]];
          ring[positions[i]] := None;
          i := i + 1;
        }
        assert positions[..i] == positions;
        servers := servers - {serverId};
        order := RemoveKey(order, serverId);
      }
    }

    /**
     * `add_server`: refuse a known id; otherwise place the replicas one by
     * one by linear probing and, if the ring fills up on the way, undo
     * every placement of this call.
     */
    method AddServer(serverId: int, hostname: string) returns (added: bool)
      requires Valid()
      modifies this, ring
      ensures Valid()
      ensures added <==> old(serverId !in servers) && virtualServers <= FreeCount(old(ring[..]))
      ensures !added ==> ring[..] == old(ring[..]) && servers == old(servers) && order == old(order)
      ensures added ==> serverId in servers
      ensures added ==>
        var ps := servers[serverId].virtualPositions;
        && servers == old(servers)[serverId := ServerInfo(hostname, ps)]
        && order == old(order) + [serverId]
        && FreshPlacement(old(ring[..]), ps)
        && ring[..] == Fill(old(ring[..]), ps, serverId)
        && Probed(old(ring[..]), serverId, ps)
    {
      if serverId in servers {
        return false;
      }
      ghost var ring0 := ring[..];
      ghost var servers0 := servers;
      ghost var order0 := order;
      assert serverId !in order;
      servers := servers[serverId := ServerInfo(hostname, [])];
      order := order + [serverId];
      ghost var ps: seq<nat> := [];
      var j := 0;
      while j < virtualServers
        invariant 0 <= j <= virtualServers
        invariant servers == servers0[serverId := ServerInfo(hostname, ps)]
        invariant order == order0 + [serverId]
        invariant |ps| == j
        invariant FreshPlacement(ring0, ps)
        invariant ring[..] == Fill(ring0, ps, serverId)
        invariant FreeCount(ring[..]) + j == FreeCount(ring0)
        invariant Probed(ring0, serverId, ps)
      {
        var initialPos := HashVirtualServer(slots, serverId, j);
        var pos := FindNextAvailableSlot(initialPos);
        if pos.None? {
          FreeCountZero(ring[..]);
          RollbackServerAddition(serverId);
          ClearFill(ring0, ps, serverId);
          RemoveKeyAppended(order0, serverId);
          assert servers == servers0;
          return false;
        }
        var p := pos.value;
        PlaceStep(ring0, serverId, ps, p);
        ring[p] := Some(serverId);
        var info := servers[serverId];
        Overwrite(servers0, serverId, info, info.(virtualPositions := info.virtualPositions + [p]));
        servers := servers[serverId := info.(virtualPositions := info.virtualPositions + [p])];
        ps := ps + [p];
        j := j + 1;
      }
      AddPreserves(ring0, servers0, virtualServers, serverId, hostname, ps);
      KeyOrderAdd(order0, servers0, serverId, ServerInfo(hostname, ps));
      return true;
    }

    /** `remove_server`: refuse an unknown id; otherwise empty its recorded slots and delete it. */
    method RemoveServer(serverId: int) returns (removed: bool)
      requires Valid()
      modifies this, ring
      ensures Valid()
      ensures removed <==> old(serverId in servers)
      ensures !removed ==> ring[..] == old(ring[..]) && servers == old(servers) && order == old(order)
      ensures removed ==> ring[..] == Evict(old(ring[..]), serverId)
      ensures removed ==> ring[..] == ClearAt(old(ring[..]), old(servers[serverId].virtualPositions))
      ensures removed ==> servers == old(servers) - {serverId} && order == RemoveKey(old(order), serverId)
    {
      if serverId !in servers {
        return false;
      }
      ghost var ring0 := ring[..];
      var positions := servers[serverId].virtualPositions;
      assert WellFormed(ring0, servers, virtualServers);
      var i := 0;
      while i < |positions|
        invariant 0 <= i <= |positions|
        invariant servers == old(servers) && order == old(order)
        invariant ring[..] == ClearAt(ring0, positions[..i])
        invariant FreeCount(ring[..]) == FreeCount(ring0) + i
      {
        ClearStep(ring0, servers, virtualServers, serverId, i);
        ring[positions[i]] := None;
        i := i + 1;
      }
      assert positions[..i] == positions;
      EvictIsClearAt(ring0, servers, virtualServers, serverId);
      RemovePreserves(ring0, servers, virtualServers, serverId);
      KeyOrderRemove(order, servers, serverId);
      servers := servers - {serverId};
      order := RemoveKey(order, serverId);
      return true;
    }

    /** `get_server`: the hostname of the first occupied slot clockwise from the request's hash. */
    method GetServer(requestId: int) returns (hostname: Option<string>)
      requires Valid()
      ensures hostname == Lookup(ring[..], servers, HashRequest(slots, requestId))
      ensures hostname.None? <==> |servers| == 0 || virtualServers == 0
      ensures hostname.Some? ==> exists id :: id in servers && servers[id].hostname == hostname.value
    {
      LookupNone(ring[..], servers, virtualServers, HashRequest(slots, requestId));
      if |servers| == 0 {
        return None;
      }
      var start := HashRequest(slots, requestId);
      var i := 0;
      while i < slots
        invariant 0 <= i <= slots
        invariant FirstFrom(ring[..], start, true, i) == FirstFrom(ring[..], start, true, 0)
      {
        var checkPos := (start + i) % slots;
        if ring[checkPos].Some? {
          var id := ring[checkPos].value;
          return Some(servers[id].hostname);
        }
        i := i + 1;
      }
      return None;
    }

    /** `get_servers_list`: the hostnames of all servers, in insertion order. */
    function ServersList(): (names: seq<string>)
      reads this
      requires Shaped()
      ensures |names| == |servers| == |order|
      ensures forall i :: 0 <= i < |names| ==> order[i] in servers && names[i] == servers[order[i]].hostname
      ensures forall h :: h in names <==> exists id :: id in servers && servers[id].hostname == h
    {
      DistinctKeysCount(order, servers);
      var names := seq(|order|, i requires 0 <= i < |order| && order[i] in servers reads this => servers[order[i]].hostname);
      assert forall h :: h in names ==> exists id :: id in servers && servers[id].hostname == h by {
        forall h | h in names ensures exists id :: id in servers && servers[id].hostname == h {
          var i :| 0 <= i < |names| && names[i] == h;
          assert order[i] in servers;
        }
      }
      assert forall h :: (exists id :: id in servers && servers[id].hostname == h) ==> h in names by {
        forall h, id | id in servers && servers[id].hostname == h ensures h in names {
          var i :| 0 <= i < |order| && order[i] == id;
          assert names[i] == h;
        }
      }
      names
    }

    /** `get_server_count`: the number of servers, the length of the hostname list. */
    function ServerCount(): (n: nat)
      reads this
      requires Shaped()
      ensures n == |ServersList()|
    {
      |servers|
    }

    /** `get_ring_status`: counts occupied slots; free and occupied make up the table. */
    method GetRingStatus() returns (status: RingStatus)
      requires Shaped()
      ensures status.totalSlots == slots && status.serverCount == |servers|
      ensures status.virtualServersPerPhysical == virtualServers && status.servers == servers
      ensures status.occupiedSlots == OccupiedCount(ring[..])
      ensures status.occupiedSlots + status.freeSlots == status.totalSlots
      ensures Valid() ==> status.occupiedSlots == virtualServers * status.serverCount
    {
      var occupied := 0;
      var p := 0;
      while p < slots
        invariant 0 <= p <= slots
        invariant occupied == OccupiedCount(ring[..p])
      {
        assert ring[..p + 1][..p] == ring[..p];
        if ring[p].Some? {
          occupied := occupied + 1;
        }
        p := p + 1;
      }
      assert ring[..p] == ring[..];
      OccupiedPlusFree(ring[..]);
      status := RingStatus(slots, occupied, slots - occupied, |servers|, virtualServers, servers);
    }

    /** `validate_ring_integrity`: report orphaned slots and positions that do not point back. */
    method ValidateRingIntegrity() returns (isValid: bool, issues: seq<Issue>)
      requires Shaped()
      ensures isValid <==> issues == []
      ensures isValid <==> Integrity(ring[..], servers)
      ensures Valid() ==> isValid
      ensures forall i :: 0 <= i < |issues| ==> Violation(ring[..], servers, issues[i])
      ensures forall p :: 0 <= p < slots && ring[p].Some? && ring[p].value !in servers ==>
        OrphanedServer(ring[p].value, p) in issues
      ensures forall id, k ::
        (id in servers && 0 <= k < |servers[id].virtualPositions| &&
         !PointsBack(ring[..], id, servers[id].virtualPositions[k])) ==>
        InvalidVirtualPosition(servers[id].virtualPositions[k], id) in issues
    {
      issues := [];
      var pos := 0;
      while pos < slots
        invariant 0 <= pos <= slots
        invariant forall i :: 0 <= i < |issues| ==> Violation(ring[..], servers, issues[i])
        invariant forall p :: 0 <= p < pos && ring[p].Some? && ring[p].value !in servers ==>
          OrphanedServer(ring[p].value, p) in issues
      {
        if ring[pos].Some? && ring[pos].value !in servers {
          issues := issues + [OrphanedServer(ring[pos].value, pos)];
        }
        pos := pos + 1;
      }
      var n := 0;
      while n < |order|
        invariant 0 <= n <= |order|
        invariant forall i :: 0 <= i < |issues| ==> Violation(ring[..], servers, issues[i])
        invariant forall p :: 0 <= p < slots && ring[p].Some? && ring[p].value !in servers ==>
          OrphanedServer(ring[p].value, p) in issues
        invariant forall m, k ::
          (0 <= m < n && 0 <= k < |servers[order[m]].virtualPositions| &&
           !PointsBack(ring[..], order[m], servers[order[m]].virtualPositions[k])) ==>
          InvalidVirtualPosition(servers[order[m]].virtualPositions[k], order[m]) in issues
      {
        var id := order[n];
        var positions := servers[id].virtualPositions;
        var k := 0;
        while k < |positions|
          invariant 0 <= k <= |positions|
          invariant forall i :: 0 <= i < |issues| ==> Violation(ring[..], servers, issues[i])
          invariant forall p :: 0 <= p < slots && ring[p].Some? && ring[p].value !in servers ==>
            OrphanedServer(ring[p].value, p) in issues
          invariant forall m, k ::
            (0 <= m < n && 0 <= k < |servers[order[m]].virtualPositions| &&
             !PointsBack(ring[..], order[m], servers[order[m]].virtualPositions[k])) ==>
            InvalidVirtualPosition(servers[order[m]].virtualPositions[k], order[m]) in issues
          invariant forall k' :: 0 <= k' < k && !PointsBack(ring[..], id, positions[k']) ==>
            InvalidVirtualPosition(positions[k'], id) in issues
        {
          var p := positions[k];
          if p >= slots || ring[p] != Some(id) {
            issues := issues + [InvalidVirtualPosition(p, id)];
          }
          k := k + 1;
        }
        n := n + 1;
      }
      isValid := |issues| == 0;
      if !isValid {
        ViolationBreaksIntegrity(ring[..], servers, issues[0]);
      }
      forall id | id in servers ensures exists m :: 0 <= m < |order| && order[m] == id {
        assert id in order;
      }
    }
  }

  /** A key order has as many entries as there are servers. */
  lemma DistinctKeysCount(order: seq<int>, servers: Servers)
    requires KeyOrder(order, servers)
    ensures |order| == |servers|
  {
    var keys := set i | 0 <= i < |order| :: order[i];
    forall id | id in servers ensures id in keys {
      var i :| 0 <= i < |order| && order[i] == id;
    }
    assert keys == servers.Keys;
    DistinctElementsCount(order);
  }

  /** A sequence without repetitions has as many elements as entries. */
  lemma {:induction false} DistinctElementsCount(s: seq<int>)
    requires forall i, j :: 0 <= i < j < |s| ==> s[i] != s[j]
    ensures |set i | 0 <= i < |s| :: s[i]| == |s|
  {
    if s != [] {
      var init := s[..|s| - 1];
      DistinctElementsCount(init);
      var a := set i | 0 <= i < |init| :: init[i];
      var b := set i | 0 <= i < |s| :: s[i];
      assert b == a + {s[|s| - 1]};
      assert s[|s| - 1] !in a;
    }
  }
}
