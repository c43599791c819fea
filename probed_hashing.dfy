/**
 * The ring of `hashing.py`: a sorted list of `(position, server)` entries
 * and the set of occupied positions. Virtual nodes that collide are moved
 * clockwise by linear probing, so no two entries share a position.
 */
module ProbedHashing {
  import opened Options
  import opened SlotScan
  import opened EntryOrder

  /** A request id as the caller passes it: an integer, or a value of another type. */
  datatype RequestId = IntId(value: int) | NotAnInt

  datatype Error = TypeError

  /** `_hash_request`: `H(i) = i + 2i^2 + 17` modulo the ring size; non-integers are rejected. */
  function HashRequest(numSlots: nat, requestId: RequestId): (r: Result<nat, Error>)
    requires numSlots > 0
    ensures r.Failure? <==> requestId.NotAnInt?
    ensures r.Success? ==> r.value < numSlots
  {
    match requestId
    case NotAnInt => Failure(TypeError)
    case IntId(i) => Success((i + 2 * i * i + 17) % numSlots)
  }

  /** `_hash_server`: `Φ(i, j) = i + j + 2j^2 + 25` modulo the ring size. */
  function HashServer(numSlots: nat, serverIntId: nat, vnode: nat): (pos: nat)
    requires numSlots > 0
    ensures pos < numSlots
  {
    (serverIntId + vnode + 2 * vnode * vnode + 25) % numSlots
  }

  /** The positions that entries of `ring` sit at. */
  ghost function Positions(ring: seq<Entry>): set<nat>
  {
    if ring == [] then {} else Positions(ring[..|ring| - 1]) + {ring[|ring| - 1].pos}
  }

  /** The positions that entries of server `name` sit at. */
  ghost function NamedPositions(ring: seq<Entry>, name: string): set<nat>
  {
    if ring == [] then {}
    else NamedPositions(ring[..|ring| - 1], name) + (if ring[|ring| - 1].name == name then {ring[|ring| - 1].pos} else {})
  }

  /** A position is taken exactly when some entry sits there. */
  lemma {:induction false} PositionsSpec(ring: seq<Entry>)
    ensures forall p :: p in Positions(ring) <==> exists x :: x in ring && x.pos == p
  {
    if ring != [] {
      var init := ring[..|ring| - 1];
      PositionsSpec(init);
      assert ring == init + [ring[|ring| - 1]];
      forall p ensures p in Positions(ring) <==> exists x :: x in ring && x.pos == p {
        if p in Positions(init) {
          var x :| x in init && x.pos == p;
          assert x in ring;
        }
        if exists x :: x in ring && x.pos == p {
          var x :| x in ring && x.pos == p;
          if x != ring[|ring| - 1] {
            assert x in init;
          }
        }
      }
    }
  }

  /** A position is taken by server `name` exactly when one of its entries sits there. */
  lemma {:induction false} NamedPositionsSpec(ring: seq<Entry>, name: string)
    ensures forall p :: p in NamedPositions(ring, name) <==> exists x :: x in ring && x.name == name && x.pos == p
  {
    if ring != [] {
      var init := ring[..|ring| - 1];
      NamedPositionsSpec(init, name);
      assert ring == init + [ring[|ring| - 1]];
      forall p ensures p in NamedPositions(ring, name) <==> exists x :: x in ring && x.name == name && x.pos == p {
        if p in NamedPositions(init, name) {
          var x :| x in init && x.name == name && x.pos == p;
          assert x in ring;
        }
        if exists x :: x in ring && x.name == name && x.pos == p {
          var x :| x in ring && x.name == name && x.pos == p;
          if x != ring[|ring| - 1] {
            assert x in init;
          }
        }
      }
    }
  }

  /** Positions strictly increase along the ring, so no two entries share one. */
  ghost predicate Ascending(ring: seq<Entry>)
  {
    forall i, j :: 0 <= i < j < |ring| ==> ring[i].pos < ring[j].pos
  }

  ghost function Elems(ps: seq<nat>): set<nat>
  {
    set p | p in ps
  }

  /** The entries of server `name` at positions `ps`, in that order. */
  function Tagged(ps: seq<nat>, name: string): (es: seq<Entry>)
    ensures |es| == |ps|
    ensures forall j :: 0 <= j < |ps| ==> es[j] == Entry(ps[j], name)
  {
    seq(|ps|, j requires 0 <= j < |ps| => Entry(ps[j], name))
  }

  /**
   * Linear probing from hash `h` stops at `p`: `p` is a free slot and every
   * slot passed over on the way is occupied.
   */
  ghost predicate Probe(occupied: set<nat>, n: nat, h: nat, p: nat)
    requires h < n
  {
    p < n && p !in occupied
    && forall k :: 0 <= k < Distance(n, h, p) ==> Step(n, h, k) in occupied
  }

  /** The slot numbers below `n`. */
  function Range(n: nat): (r: set<nat>)
    ensures |r| == n
    ensures forall p: nat :: p in r <==> p < n
  {
    if n == 0 then {} else Range(n - 1) + {n - 1}
  }

  /** A ring with fewer occupied slots than slots has a free one. */
  lemma FreeSlotExists(occupied: set<nat>, n: nat) returns (f: nat)
    requires forall p :: p in occupied ==> p < n
    requires |occupied| < n
    ensures f < n && f !in occupied
  {
    var all := Range(n);
    assert all * occupied == occupied;
    var rest := all - occupied;
    assert |rest| > 0;
    f :| f in rest;
  }

  /**
   * The other side of `FreeSlotExists`: once every slot is taken, each
   * position the probe visits is occupied, so the probe never stops.
   */
  lemma FullRingProbeSpins(occupied: set<nat>, n: nat, start: nat, d: nat)
    requires n > 0
    requires forall p :: p in occupied ==> p < n
    requires |occupied| >= n
    ensures Step(n, start, d) in occupied
  {
    var all := Range(n);
    assert occupied <= all;
    assert |all - occupied| == 0 by {
      assert all == (all - occupied) + occupied;
    }
    assert Step(n, start, d) in all;
    assert Step(n, start, d) !in all - occupied;
  }

  /** Lists with the same entries take the same positions. */
  lemma PositionsOfSameEntries(a: seq<Entry>, b: seq<Entry>)
    requires forall x :: x in a <==> x in b
    ensures Positions(a) == Positions(b)
  {
    PositionsSpec(a);
    PositionsSpec(b);
    forall p | p in Positions(a) ensures p in Positions(b) {
      var x :| x in a && x.pos == p;
    }
    forall p | p in Positions(b) ensures p in Positions(a) {
      var x :| x in b && x.pos == p;
    }
  }

  /** Inserting an entry adds its position. */
  lemma InsortPositions(s: seq<Entry>, e: Entry)
    ensures Positions(Insort(s, e)) == Positions(s) + {e.pos}
  {
    var r := Insort(s, e);
    forall x ensures x in r <==> x in s + [e] {
      assert x in r <==> x in multiset(r);
      assert x in s + [e] <==> x in multiset(s + [e]);
    }
    PositionsOfSameEntries(r, s + [e]);
    PositionsSpec(s);
    PositionsSpec(s + [e]);
    forall p | p in Positions(s + [e]) ensures p in Positions(s) + {e.pos} {
      var x :| x in s + [e] && x.pos == p;
    }
    assert e in s + [e];
    forall p | p in Positions(s) ensures p in Positions(s + [e]) {
      var x :| x in s && x.pos == p;
      assert x in s + [e];
    }
  }

  /** Inserting an entry at a position not yet taken keeps positions ascending. */
  lemma {:induction false} InsortAscending(s: seq<Entry>, e: Entry)
    requires Sorted(s) && Ascending(s)
    requires forall i :: 0 <= i < |s| ==> s[i].pos != e.pos
    ensures Ascending(Insort(s, e))
  {
    if s != [] && EntryLe(s[0], e) {
      var tail := s[1..];
      InsortAscending(tail, e);
      var rest := Insort(tail, e);
      forall i | 0 <= i < |rest| ensures s[0].pos < rest[i].pos {
        assert rest[i] in multiset(tail) + multiset{e};
        if rest[i] != e {
          var k :| 0 <= k < |tail| && tail[k] == rest[i];
          assert s[k + 1] == rest[i];
        }
      }
    }
  }

  /** Dropping entries keeps positions ascending. */
  lemma {:induction false} WithoutAscending(s: seq<Entry>, name: string)
    requires Ascending(s)
    ensures Ascending(Without(s, name))
  {
    if s != [] {
      var init := s[..|s| - 1];
      WithoutAscending(init, name);
      var w := Without(init, name);
      forall i | 0 <= i < |w| ensures w[i].pos < s[|s| - 1].pos {
        var k :| 0 <= k < |init| && init[k] == w[i];
      }
    }
  }

  /** Dropping a server frees exactly that server's positions, as no other entry shares them. */
  lemma WithoutPositions(s: seq<Entry>, name: string)
    requires Ascending(s)
    ensures Positions(Without(s, name)) == Positions(s) - NamedPositions(s, name)
  {
    var w := Without(s, name);
    PositionsSpec(s);
    PositionsSpec(w);
    NamedPositionsSpec(s, name);
    forall p | p in Positions(s) - NamedPositions(s, name) ensures p in Positions(w) {
      var x :| x in s && x.pos == p;
      assert x in w;
    }
    forall p | p in Positions(w) ensures p in Positions(s) - NamedPositions(s, name) {
      var x :| x in w && x.pos == p;
      forall y | y in s && y.name == name ensures y.pos != p {
        var i :| 0 <= i < |s| && s[i] == x;
        var j :| 0 <= j < |s| && s[j] == y;
        assert i != j;
      }
    }
  }

  /**
   * The ring's invariant: entries sorted with strictly ascending positions,
   * the occupied set exactly their positions, every position a slot.
   */
  ghost predicate Consistent(ring: seq<Entry>, occupied: set<nat>, n: nat)
  {
    n > 0 && Sorted(ring) && Ascending(ring) && Positions(ring) == occupied
    && forall p :: p in occupied ==> p < n
  }

  /** Inserting an entry at a free slot keeps the ring consistent and takes one more slot. */
  lemma PlaceConsistent(ring: seq<Entry>, occupied: set<nat>, n: nat, e: Entry)
    requires Consistent(ring, occupied, n) && e.pos < n && e.pos !in occupied
    ensures Consistent(Insort(ring, e), occupied + {e.pos}, n)
    ensures |occupied + {e.pos}| == |occupied| + 1
  {
    InsortSorted(ring, e);
    PositionsSpec(ring);
    forall i | 0 <= i < |ring| ensures ring[i].pos != e.pos {
      assert ring[i] in ring;
    }
    InsortAscending(ring, e);
    InsortPositions(ring, e);
  }

  /** Dropping a server and freeing its positions keeps the ring consistent. */
  lemma DropConsistent(ring: seq<Entry>, occupied: set<nat>, n: nat, name: string)
    requires Consistent(ring, occupied, n)
    ensures Consistent(Without(ring, name), occupied - NamedPositions(ring, name), n)
  {
    WithoutSorted(ring, name);
    WithoutAscending(ring, name);
    WithoutPositions(ring, name);
  }

  /** The j-th of the nodes at `placed` was probed from its hash over the slots taken before it. */
  ghost predicate Probes(occupied0: set<nat>, n: nat, serverIntId: nat, placed: seq<nat>)
    requires n > 0
  {
    forall k :: 0 <= k < |placed| ==>
      Probe(occupied0 + Elems(placed[..k]), n, HashServer(n, serverIntId, k), placed[k])
  }

  lemma ProbesExtend(occupied0: set<nat>, n: nat, serverIntId: nat, placed: seq<nat>, pos: nat)
    requires n > 0
    requires Probes(occupied0, n, serverIntId, placed)
    requires Probe(occupied0 + Elems(placed), n, HashServer(n, serverIntId, |placed|), pos)
    ensures Probes(occupied0, n, serverIntId, placed + [pos])
  {
    var placed' := placed + [pos];
    forall k | 0 <= k < |placed'|
      ensures Probe(occupied0 + Elems(placed'[..k]), n, HashServer(n, serverIntId, k), placed'[k])
    {
      if k < |placed| {
        assert placed'[..k] == placed[..k];
      } else {
        assert placed'[..k] == placed;
      }
    }
  }

  /**
   * What `add_server` has done after placing virtual nodes at `placed`,
   * starting from `ring0` and `occupied0`: the ring is consistent and holds
   * the old entries plus one per placement.
   */
  ghost predicate Placed(ring0: seq<Entry>, occupied0: set<nat>, ring: seq<Entry>, occupied: set<nat>,
                         n: nat, name: string, placed: seq<nat>)
  {
    Consistent(ring, occupied, n)
    && occupied == occupied0 + Elems(placed)
    && |occupied| == |occupied0| + |placed|
    && multiset(ring) == multiset(ring0) + multiset(Tagged(placed, name))
    && NamedCount(ring, name) == NamedCount(ring0, name) + |placed|
  }

  /** One round of `add_server`'s loop after the probe: mark the slot taken, insert the entry. */
  lemma PlacedStep(ring0: seq<Entry>, occupied0: set<nat>, ring: seq<Entry>, occupied: set<nat>,
                   n: nat, name: string, placed: seq<nat>, pos: nat)
    requires Placed(ring0, occupied0, ring, occupied, n, name, placed)
    requires pos < n && pos !in occupied
    ensures Placed(ring0, occupied0, Insort(ring, Entry(pos, name)), occupied + {pos}, n, name, placed + [pos])
  {
    var entry := Entry(pos, name);
    PlaceConsistent(ring, occupied, n, entry);
    NamedCountInsort(ring, entry, name);
    PlaceStep(placed, pos, name);
  }

  /**
   * What `remove_server` has done after scanning the first `i` entries of
   * `ring` (whose positions were `occupied0`): the kept entries are copied,
   * the dropped ones' positions freed.
   */
  ghost predicate Scanned(ring: seq<Entry>, occupied0: set<nat>, name: string, i: nat,
                          newRing: seq<Entry>, occupied: set<nat>)
  {
    i <= |ring|
    && newRing == Without(ring[..i], name)
    && occupied == occupied0 - NamedPositions(ring[..i], name)
  }

  /** A round of `remove_server`'s scan that keeps the entry. */
  lemma ScanKeep(ring: seq<Entry>, occupied0: set<nat>, name: string, i: nat,
                 newRing: seq<Entry>, occupied: set<nat>)
    requires Scanned(ring, occupied0, name, i, newRing, occupied) && i < |ring| && ring[i].name != name
    ensures Scanned(ring, occupied0, name, i + 1, newRing + [ring[i]], occupied)
  {
    var e := ring[i];
    assert ring[..i + 1] == ring[..i] + [e];
    assert (ring[..i] + [e])[..i] == ring[..i];
  }

  /**
   * A round of `remove_server`'s scan that drops the entry. Its position
   * is still in the occupied set, so `set.remove` finds it: no entry before
   * it had that position.
   */
  lemma ScanDrop(ring: seq<Entry>, occupied0: set<nat>, n: nat, name: string, i: nat,
                 newRing: seq<Entry>, occupied: set<nat>)
    requires Consistent(ring, occupied0, n)
    requires Scanned(ring, occupied0, name, i, newRing, occupied) && i < |ring| && ring[i].name == name
    ensures ring[i].pos in occupied
    ensures Scanned(ring, occupied0, name, i + 1, newRing, occupied - {ring[i].pos})
  {
    StillOccupied(ring, occupied0, name, i, newRing, occupied);
    var e := ring[i];
    assert ring[..i + 1] == ring[..i] + [e];
    assert (ring[..i] + [e])[..i] == ring[..i];
  }

  lemma StillOccupied(ring: seq<Entry>, occupied0: set<nat>, name: string, i: nat,
                      newRing: seq<Entry>, occupied: set<nat>)
    requires Ascending(ring) && Positions(ring) == occupied0
    requires Scanned(ring, occupied0, name, i, newRing, occupied) && i < |ring|
    ensures ring[i].pos in occupied
  {
    PositionsSpec(ring);
    NamedPositionsSpec(ring[..i], name);
    assert ring[i] in ring;
    forall x | x in ring[..i] ensures x.pos != ring[i].pos {
      var k :| 0 <= k < i && ring[k] == x;
    }
  }

  /**
   * A finished scan has dropped exactly the entries of `name` and freed
   * exactly their positions, leaving a consistent ring.
   */
  lemma ScanDone(ring: seq<Entry>, occupied0: set<nat>, n: nat, name: string, newRing: seq<Entry>, occupied: set<nat>)
    requires Consistent(ring, occupied0, n)
    requires Scanned(ring, occupied0, name, |ring|, newRing, occupied)
    ensures newRing == Without(ring, name)
    ensures occupied == occupied0 - NamedPositions(ring, name)
    ensures Consistent(newRing, occupied, n)
  {
    assert ring[..|ring|] == ring;
    DropConsistent(ring, occupied0, n, name);
  }

  /**
   * Removing a server undoes adding it: if the ring held no entry of `name`,
   * adding `name` at free positions `placed` and then dropping it restores
   * both the entry list and the occupied set.
   */
  lemma RemoveUndoesAdd(ring: seq<Entry>, occupied: set<nat>, ring': seq<Entry>, placed: seq<nat>, name: string)
    requires Sorted(ring) && Sorted(ring') && NoneNamed(ring, name)
    requires multiset(ring') == multiset(ring) + multiset(Tagged(placed, name))
    requires forall j :: 0 <= j < |placed| ==> placed[j] !in occupied
    ensures Without(ring', name) == ring
    ensures (occupied + Elems(placed)) - NamedPositions(ring', name) == occupied
  {
    EntryOrder.RemoveUndoesAdd(ring, ring', Tagged(placed, name), name);
    NamedPositionsSpec(ring', name);
    forall p ensures p in NamedPositions(ring', name) <==> p in Elems(placed) {
      if p in NamedPositions(ring', name) {
        var x :| x in ring' && x.name == name && x.pos == p;
        assert x in multiset(ring');
        assert x !in ring;
        assert x in Tagged(placed, name);
      }
      if p in Elems(placed) {
        var j :| 0 <= j < |placed| && placed[j] == p;
        assert Tagged(placed, name)[j] in multiset(ring');
      }
    }
  }

  /** The collision loop of `add_server`: step clockwise from `h` until a free slot turns up. */
  method LinearProbe(occupied: set<nat>, n: nat, h: nat) returns (pos: nat)
    requires h < n
    requires forall p :: p in occupied ==> p < n
    requires |occupied| < n
    ensures Probe(occupied, n, h, pos)
  {
    pos := h;
    ghost var free := FreeSlotExists(occupied, n);
    ghost var d := 0;
    while pos in occupied
      invariant pos < n && d == Distance(n, h, pos)
      invariant d <= Distance(n, h, free)
      invariant forall k :: 0 <= k < d ==> Step(n, h, k) in occupied
      decreases Distance(n, h, free) - d
    {
      DistanceNext(n, h, pos);
      pos := (pos + 1) % n;
      d := d + 1;
    }
  }

  /** `bisect.bisect_left`: the first index whose value is at least `x`, by binary search. */
  method BisectLeft(a: seq<nat>, x: nat) returns (lo: nat)
    requires forall i, j :: 0 <= i < j < |a| ==> a[i] <= a[j]
    ensures lo <= |a|
    ensures forall k :: 0 <= k < lo ==> a[k] < x
    ensures forall k :: lo <= k < |a| ==> x <= a[k]
  {
    lo := 0;
    var hi := |a|;
    while lo < hi
      invariant lo <= hi <= |a|
      invariant forall k :: 0 <= k < lo ==> a[k] < x
      invariant forall k :: hi <= k < |a| ==> x <= a[k]
    {
      var mid := (lo + hi) / 2;
      if a[mid] < x {
        lo := mid + 1;
      } else {
        hi := mid;
      }
    }
  }

  class ConsistentHash {
    const numSlots: nat
    const vnodes: nat
    /** `_server_id_to_int`: the MD5 digest of the server name, read as an integer. */
    const serverIdToInt: string -> nat
    /** Entries sorted by `(position, name)`. */
    var ring: seq<Entry>
    /** The positions taken by entries, kept for collision checks. */
    var occupiedSlots: set<nat>

    ghost predicate Valid()
      reads this
    {
      Consistent(ring, occupiedSlots, numSlots)
    }

    constructor (serverIdToInt: string -> nat, numSlots: nat := 512, vnodes: nat := 9)
      requires numSlots > 0
      ensures Valid()
      ensures this.numSlots == numSlots && this.vnodes == vnodes && this.serverIdToInt == serverIdToInt
      ensures ring == [] && occupiedSlots == {}
    {
      this.numSlots := numSlots;
      this.vnodes := vnodes;
      this.serverIdToInt := serverIdToInt;
      ring := [];
      occupiedSlots := {};
    }

    /**
     * Places `vnodes` virtual nodes of `serverName`, the j-th at the first
     * free slot clockwise from `HashServer(.., j)`. The name is not checked:
     * adding it again adds another `vnodes` entries.
     */
    method AddServer(serverName: string) returns (ghost placed: seq<nat>)
      requires Valid()
      requires |occupiedSlots| + vnodes <= numSlots
      modifies this
      ensures Valid()
      ensures |placed| == vnodes
      ensures occupiedSlots == old(occupiedSlots) + Elems(placed)
      ensures |occupiedSlots| == |old(occupiedSlots)| + vnodes
      ensures multiset(ring) == multiset(old(ring)) + multiset(Tagged(placed, serverName))
      ensures NamedCount(ring, serverName) == NamedCount(old(ring), serverName) + vnodes
      ensures forall j :: 0 <= j < vnodes ==>
        Probe(old(occupiedSlots) + Elems(placed[..j]), numSlots, HashServer(numSlots, serverIdToInt(serverName), j), placed[j])
    {
      var serverIntId := serverIdToInt(serverName);
      ghost var ring0 := ring;
      ghost var occupied0 := occupiedSlots;
      placed := [];
      var j := 0;
      while j < vnodes
        invariant j <= vnodes && |placed| == j
        invariant Placed(ring0, occupied0, ring, occupiedSlots, numSlots, serverName, placed)
        invariant Probes(occupied0, numSlots, serverIntId, placed)
      {
        var pos := HashServer(numSlots, serverIntId, j);
        pos := LinearProbe(occupiedSlots, numSlots, pos);
        PlacedStep(ring0, occupied0, ring, occupiedSlots, numSlots, serverName, placed, pos);
        ProbesExtend(occupied0, numSlots, serverIntId, placed, pos);
        occupiedSlots := occupiedSlots + {pos};
        ring := Insort(ring, Entry(pos, serverName));
        placed := placed + [pos];
        j := j + 1;
      }
    }

    /**
     * Drops every entry of `serverName` and frees its positions. Each freed
     * position is in the occupied set, so `set.remove` never fails.
     */
    method RemoveServer(serverName: string)
      requires Valid()
      modifies this
      ensures Valid()
      ensures ring == Without(old(ring), serverName)
      ensures occupiedSlots == old(occupiedSlots) - NamedPositions(old(ring), serverName)
    {
      var entries := ring;
      ghost var occupied0 := occupiedSlots;
      var newRing: seq<Entry> := [];
      var i := 0;
      while i < |entries|
        invariant Consistent(entries, occupied0, numSlots)
        invariant Scanned(entries, occupied0, serverName, i, newRing, occupiedSlots)
        decreases |entries| - i
      {
        var entry := entries[i];
        if entry.name == serverName {
          ScanDrop(entries, occupied0, numSlots, serverName, i, newRing, occupiedSlots);
          occupiedSlots := occupiedSlots - {entry.pos};
        } else {
          ScanKeep(entries, occupied0, serverName, i, newRing, occupiedSlots);
          newRing := newRing + [entry];
        }
        i := i + 1;
      }
      ScanDone(entries, occupied0, numSlots, serverName, newRing, occupiedSlots);
      ring := newRing;
    }

    /**
     * The server a request goes to: `None` on an empty ring, the `TypeError`
     * of a non-integer id otherwise, else the entry at the first position at
     * or after the request's hash, wrapping to the first entry.
     */
    method GetServer(requestId: RequestId) returns (r: Result<Option<string>, Error>)
      requires Valid()
      ensures ring == [] ==> r == Success(None)
      ensures ring != [] ==> (r.Failure? <==> requestId.NotAnInt?)
      ensures ring != [] && requestId.IntId? ==>
        r == Success(Some(Successor(ring, HashRequest(numSlots, requestId).value).name))
    {
      if ring == [] {
        return Success(None);
      }
      var hashed := HashRequest(numSlots, requestId);
      if hashed.Failure? {
        return Failure(hashed.error);
      }
      var pos := hashed.value;
      var entries := ring;
      var positions: seq<nat> := seq(|entries|, i requires 0 <= i < |entries| => entries[i].pos);
      assert forall i, j :: 0 <= i < j < |positions| ==> positions[i] <= positions[j] by {
        forall i, j | 0 <= i < j < |positions| ensures positions[i] <= positions[j] {
          assert EntryLe(entries[i], entries[j]);
        }
      }
      var index := BisectLeft(positions, pos);
      assert forall k :: 0 <= k < |positions| ==> positions[k] == ring[k].pos;
      FirstAtOrAfterIs(ring, pos, index);
      if index == |ring| {
        index := 0;
      }
      return Success(Some(ring[index].name));
    }
  }

  /** One placement of the probing loop, on the bookkeeping sequences. */
  lemma PlaceStep(placed: seq<nat>, pos: nat, name: string)
    ensures Tagged(placed + [pos], name) == Tagged(placed, name) + [Entry(pos, name)]
    ensures Elems(placed + [pos]) == Elems(placed) + {pos}
    ensures forall k :: 0 <= k <= |placed| ==> (placed + [pos])[..k] == placed[..k]
  {
  }
}
