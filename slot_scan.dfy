/**
 * Clockwise scans over a fixed-size slot table: the linear probe that finds
 * a free slot, and the lookup that finds the nearest occupied slot.
 * A slot is empty (`None`) or holds the id of the server placed there.
 */
module SlotScan {
  import opened Options

  type Slot = Option<int>

  /** The slot reached after `d` steps clockwise from `start` on a ring of `n` slots. */
  function Step(n: nat, start: nat, d: nat): (p: nat)
    requires n > 0
    ensures p < n
  {
    (start + d) % n
  }

  /** How many clockwise steps lead from `start` to `p`. */
  function Distance(n: nat, start: nat, p: nat): (d: nat)
    requires start < n && p < n
    ensures d < n && Step(n, start, d) == p
  {
    if start <= p then
      ModBelow(start + (p - start), n);
      p - start
    else
      ModWrap(start + (p + n - start), n);
      p + n - start
  }

  lemma ModBelow(x: nat, n: nat)
    requires x < n
    ensures x % n == x
  {
  }

  lemma ModWrap(x: nat, n: nat)
    requires n <= x < 2 * n
    ensures x % n == x - n
  {
  }

  /**
   * The first offset `d` at or after `from` (and below the ring size) whose
   * slot, `d` steps clockwise from `start`, is occupied exactly when
   * `occupied` is true; `None` when no offset up to a full turn qualifies.
   */
  function FirstFrom(ring: seq<Slot>, start: nat, occupied: bool, from: nat): (r: Option<nat>)
    requires |ring| > 0 && from <= |ring|
    ensures r.Some? ==> from <= r.value < |ring| && ring[Step(|ring|, start, r.value)].Some? == occupied
    ensures r.Some? ==> forall k :: from <= k < r.value ==> ring[Step(|ring|, start, k)].Some? != occupied
    ensures r.None? ==> forall k :: from <= k < |ring| ==> ring[Step(|ring|, start, k)].Some? != occupied
    decreases |ring| - from
  {
    if from == |ring| then None
    else if ring[Step(|ring|, start, from)].Some? == occupied then Some(from)
    else FirstFrom(ring, start, occupied, from + 1)
  }

  /** `FirstFrom` is determined by its contract: an offset that qualifies, with none before it, is the one found. */
  lemma {:induction false} FirstFromIs(ring: seq<Slot>, start: nat, occupied: bool, from: nat, d: nat)
    requires |ring| > 0 && from <= d < |ring|
    requires ring[Step(|ring|, start, d)].Some? == occupied
    requires forall k :: from <= k < d ==> ring[Step(|ring|, start, k)].Some? != occupied
    ensures FirstFrom(ring, start, occupied, from) == Some(d)
    decreases d - from
  {
    if from < d {
      FirstFromIs(ring, start, occupied, from + 1, d);
    }
  }

  /** The first empty slot clockwise from `start`, inclusive; `None` when the ring is full. */
  function NextFree(ring: seq<Slot>, start: nat): (r: Option<nat>)
    requires |ring| > 0 && start < |ring|
    ensures r.Some? ==> r.value < |ring| && ring[r.value].None?
  {
    match FirstFrom(ring, start, false, 0)
    case None => None
    case Some(d) => Some(Step(|ring|, start, d))
  }

  /** The server in the first occupied slot clockwise from `start`, inclusive; `None` when every slot is empty. */
  function Owner(ring: seq<Slot>, start: nat): (r: Option<int>)
    requires |ring| > 0 && start < |ring|
    ensures r.Some? ==> exists p :: 0 <= p < |ring| && ring[p] == r
  {
    match FirstFrom(ring, start, true, 0)
    case None => None
    case Some(d) => ring[Step(|ring|, start, d)]
  }

  /** True when every slot holds a server. */
  ghost predicate Full(ring: seq<Slot>)
  {
    forall p :: 0 <= p < |ring| ==> ring[p].Some?
  }

  /** True when no slot holds a server. */
  ghost predicate Empty(ring: seq<Slot>)
  {
    forall p :: 0 <= p < |ring| ==> ring[p].None?
  }

  /** The linear probe finds nothing exactly when the ring is full. */
  lemma NextFreeNone(ring: seq<Slot>, start: nat)
    requires |ring| > 0 && start < |ring|
    ensures NextFree(ring, start).None? <==> Full(ring)
  {
    var n := |ring|;
    if FirstFrom(ring, start, false, 0).None? {
      forall p | 0 <= p < n ensures ring[p].Some? {
        var d := Distance(n, start, p);
      }
    }
  }

  /** What the linear probe finds is an empty slot, and every slot it stepped over is occupied. */
  lemma NextFreeFound(ring: seq<Slot>, start: nat, p: nat)
    requires |ring| > 0 && start < |ring|
    requires NextFree(ring, start) == Some(p)
    ensures p < |ring| && ring[p].None?
    ensures forall k :: 0 <= k < Distance(|ring|, start, p) ==> ring[Step(|ring|, start, k)].Some?
  {
    var d := FirstFrom(ring, start, false, 0).value;
    assert Step(|ring|, start, d) == p;
    DistanceOfStep(|ring|, start, d);
  }

  /** Stepping `d` times, less than a full turn, covers a distance of `d`. */
  lemma DistanceOfStep(n: nat, start: nat, d: nat)
    requires start < n && d < n
    ensures Distance(n, start, Step(n, start, d)) == d
  {
    if start + d < n {
      assert Step(n, start, d) == start + d;
    } else {
      assert Step(n, start, d) == start + d - n;
    }
  }

  /** One more step clockwise, short of a full turn, is one more unit of distance. */
  lemma DistanceNext(n: nat, start: nat, p: nat)
    requires start < n && p < n && Distance(n, start, p) + 1 < n
    ensures Distance(n, start, (p + 1) % n) == Distance(n, start, p) + 1
  {
    if p + 1 < n {
      ModBelow(p + 1, n);
    } else {
      ModWrap(p + 1, n);
    }
  }

  /** The lookup finds a server exactly when some slot is occupied. */
  lemma OwnerSpec(ring: seq<Slot>, start: nat)
    requires |ring| > 0 && start < |ring|
    ensures Owner(ring, start).None? <==> Empty(ring)
  {
    var n := |ring|;
    if FirstFrom(ring, start, true, 0).None? {
      forall p | 0 <= p < n ensures ring[p].None? {
        var d := Distance(n, start, p);
      }
    }
  }

  /** The table with every slot of server `id` emptied and the rest as they were. */
  function Evict(ring: seq<Slot>, id: int): (r: seq<Slot>)
    ensures |r| == |ring|
    ensures forall p :: 0 <= p < |ring| ==> r[p] == (if ring[p] == Some(id) then None else ring[p])
  {
    seq(|ring|, p requires 0 <= p < |ring| => if ring[p] == Some(id) then None else ring[p])
  }

  /**
   * Minimal disruption: emptying the slots of server `id` changes the lookup
   * only for starting points that led to `id`; every other start still
   * reaches the same server.
   */
  lemma {:induction false} OwnerAfterEvict(ring: seq<Slot>, id: int, start: nat)
    requires |ring| > 0 && start < |ring|
    requires Owner(ring, start) != Some(id)
    ensures Owner(Evict(ring, id), start) == Owner(ring, start)
  {
    var n := |ring|;
    var evicted := Evict(ring, id);
    match FirstFrom(ring, start, true, 0)
    case None =>
      assert forall k :: 0 <= k < n ==> evicted[Step(n, start, k)].None?;
      assert FirstFrom(evicted, start, true, 0) == None;
    case Some(d) =>
      assert ring[Step(n, start, d)] != Some(id);
      FirstFromIs(evicted, start, true, 0, d);
  }

  /** Number of empty slots. */
  function FreeCount(ring: seq<Slot>): (c: nat)
    ensures c <= |ring|
  {
    if ring == [] then 0 else FreeCount(ring[..|ring| - 1]) + (if ring[|ring| - 1].None? then 1 else 0)
  }

  /** Number of occupied slots, counted as `get_ring_status` counts them. */
  function OccupiedCount(ring: seq<Slot>): (c: nat)
    ensures c <= |ring|
  {
    if ring == [] then 0 else OccupiedCount(ring[..|ring| - 1]) + (if ring[|ring| - 1].Some? then 1 else 0)
  }

  /** Occupied and free slots together make up the whole table. */
  lemma {:induction false} OccupiedPlusFree(ring: seq<Slot>)
    ensures OccupiedCount(ring) + FreeCount(ring) == |ring|
  {
    if ring != [] {
      OccupiedPlusFree(ring[..|ring| - 1]);
    }
  }

  /** No free slot is left exactly when the table is full. */
  lemma {:induction false} FreeCountZero(ring: seq<Slot>)
    ensures FreeCount(ring) == 0 <==> Full(ring)
  {
    if ring != [] {
      var init := ring[..|ring| - 1];
      FreeCountZero(init);
      assert forall p :: 0 <= p < |init| ==> init[p] == ring[p];
    }
  }

  /** No slot is occupied exactly when all of them are free. */
  lemma {:induction false} FreeCountAll(ring: seq<Slot>)
    ensures FreeCount(ring) == |ring| <==> Empty(ring)
  {
    if ring != [] {
      var init := ring[..|ring| - 1];
      FreeCountAll(init);
      assert forall p :: 0 <= p < |init| ==> init[p] == ring[p];
    }
  }

  /** Writing one slot changes the free count by the change in that slot alone. */
  lemma {:induction false} FreeCountUpdate(ring: seq<Slot>, p: nat, x: Slot)
    requires p < |ring|
    ensures FreeCount(ring[p := x]) + (if ring[p].None? then 1 else 0)
         == FreeCount(ring) + (if x.None? then 1 else 0)
  {
    var last := |ring| - 1;
    if p < last {
      assert ring[p := x][..last] == ring[..last][p := x];
      FreeCountUpdate(ring[..last], p, x);
    } else {
      assert ring[p := x][..last] == ring[..last];
    }
  }
}
