# Consistent hashing for a containerised load balancer

This project models the consistent-hash rings of a small load balancer, in
Dafny, and proves what they promise.

The repository holds three rings.

- `load_balancer/consistent_hash.py` is the ring the load balancer uses.
  - A fixed table of `slots` entries, each empty or holding a server id.
  - A dictionary of servers, with each server's hostname and the slots its
    virtual replicas occupy.
  - Replicas are placed by the polynomial hash Φ(i, j) = i² + j² + 2j + 25.
    A collision moves the replica on by linear probing.
  - A request with id i goes to the first occupied slot clockwise from
    H(i) = i² + 2i + 17.
  - It is modelled as the class `ConsistentHashing.ConsistentHash`, over an
    `array` table, a `map` of servers and a `seq` that keeps the
    dictionary's insertion order.
- `hashing.py` keeps a sorted list of `(position, server)` entries and a
  set of occupied positions.
  - Colliding virtual nodes are moved on by linear probing.
  - Requests are routed with a binary search (`bisect_left`), wrapping
    round to the first entry.
  - It is modelled as `ProbedHashing.ConsistentHash`.
- `load_balancer/hashing.py` appends the entries of a server and re-sorts
  the list.
  - Colliding entries share a position.
  - Requests are routed by a linear scan for the first position at or
    after the key's hash.
  - It is modelled as `Sha1Hashing.ConsistentHash`.

Shared modules:

- `SlotScan`: the clockwise scan over a slot table.
- `EntryOrder`: the tuple order `(position, name)`, insertion into a
  sorted list, sorting, filtering out a server, and the clockwise
  successor of a hash.
- `Options`: the `Option` and `Result` types.

What is proved:

- Every operation keeps its ring's invariant.
  - The table and the server map agree.
  - There are `v` occupied slots per server.
  - The entry list stays sorted, without duplicate positions, and matches
    the occupied set.
- Placement really is linear probing.
- Requests go to the clockwise-nearest replica.
- Removing a server undoes adding it.
- Minimal disruption:
  - adding a server moves requests only to that server;
  - removing a server moves only the requests it served.
- `validate_ring_integrity` reports exactly the real violations.
- The sorted ring built by the SHA-1 variant does not depend on the order
  in which servers are added.

Python's `%` floors, and Dafny's `%` is Euclidean. For the positive ring
sizes used here the two agree, including for negative request ids.

## Model

| member | source | states |
|---|---|---|
| ConsistentHashing.HashRequest | load_balancer/consistent_hash.py:49-63 | the request hash always lands on a slot of the ring |
| ConsistentHashing.HashVirtualServer | load_balancer/consistent_hash.py:65-85 | the replica hash always lands on a slot of the ring |
| ConsistentHashing.RemoveKey | load_balancer/consistent_hash.py:184 | deleting a server keeps exactly the other keys |
| ConsistentHashing.Fill | load_balancer/consistent_hash.py:138 | writing the server into the chosen slots changes exactly those slots and keeps the table size |
| ConsistentHashing.ClearAt | load_balancer/consistent_hash.py:179-180 | emptying the recorded slots changes exactly those slots and keeps the table size |
| ConsistentHashing.Lookup | load_balancer/consistent_hash.py:189-219 | a hostname that routing returns belongs to a registered server |
| ConsistentHashing.ViolationBreaksIntegrity | load_balancer/consistent_hash.py:272-281 | each kind of reported issue (an orphaned slot, a position not pointing back) contradicts integrity |
| ConsistentHashing.SlotsOfServer | load_balancer/consistent_hash.py:138-139 | in a well-formed ring, a slot holds a server exactly when it is among that server's recorded positions |
| ConsistentHashing.KeyOrderAdd | load_balancer/consistent_hash.py:119-122 | inserting a new server appends its key to the dictionary order, once |
| ConsistentHashing.RemoveKeyDistinct | load_balancer/consistent_hash.py:184 | deleting a key keeps the remaining keys without repetition |
| ConsistentHashing.KeyOrderRemove | load_balancer/consistent_hash.py:184 | after `del`, the key order lists exactly the remaining servers |
| ConsistentHashing.RemoveKeyAbsent | load_balancer/consistent_hash.py:153-159 | deleting a key that is absent leaves the order unchanged |
| ConsistentHashing.RemoveKeyAppended | load_balancer/consistent_hash.py:159 | rollback's `del` of the key just added restores the previous order |
| ConsistentHashing.PlaceStep | load_balancer/consistent_hash.py:125-139 | each probe result extends a placement of distinct, previously free, probed slots, and frees one slot fewer |
| ConsistentHashing.ProbedExtend | load_balancer/consistent_hash.py:125-129 | placing one more replica does not disturb the probe results of the earlier ones |
| ConsistentHashing.ClearFill | load_balancer/consistent_hash.py:146-160 | emptying the recorded slots of a partial placement restores the table exactly |
| ConsistentHashing.EvictFill | load_balancer/consistent_hash.py:162-187 | evicting a server that was absent before a placement restores the table |
| ConsistentHashing.FillFreeCount | load_balancer/consistent_hash.py:138 | placing replicas in distinct free slots uses up exactly one free slot each |
| ConsistentHashing.ClearFreeCount | load_balancer/consistent_hash.py:179-180 | emptying distinct occupied slots frees exactly one slot each |
| ConsistentHashing.AddPreserves | load_balancer/consistent_hash.py:103-144 | a completed placement of a new server keeps the ring well formed, with `v` more occupied slots |
| ConsistentHashing.AddKeepsBackReferences | load_balancer/consistent_hash.py:138-139 | every recorded position still points back to its server after a placement |
| ConsistentHashing.AddKeepsRecorded | load_balancer/consistent_hash.py:138-139 | every occupied slot is still recorded by its server, and none is orphaned, after a placement |
| ConsistentHashing.RemovePreserves | load_balancer/consistent_hash.py:162-187 | evicting a server keeps the rest of the ring well formed |
| ConsistentHashing.EvictFreeCount | load_balancer/consistent_hash.py:162-187 | removing a server of a well-formed ring frees exactly its `v` slots |
| ConsistentHashing.ClearStep | load_balancer/consistent_hash.py:179-180 | each slot the removal loop clears is on the ring, still occupied, and becomes free |
| ConsistentHashing.EvictIsClearAt | load_balancer/consistent_hash.py:179-180 | clearing the recorded positions removes exactly the slots holding the server and nothing else |
| ConsistentHashing.LookupNone | load_balancer/consistent_hash.py:202-219 | routing finds no server exactly when there are no servers, or when no server has replicas |
| ConsistentHashing.LookupAfterRemove | load_balancer/consistent_hash.py:189-219 | removing a server changes the routing only of requests that server served |
| ConsistentHashing.LookupAfterAdd | load_balancer/consistent_hash.py:189-219 | adding a server changes the routing only of requests the new server takes |
| ConsistentHashing.RemoveUndoesAdd | load_balancer/consistent_hash.py:162-187 | removing a server right after adding it restores the table and the server map |
| ConsistentHashing.ConsistentHash.constructor | load_balancer/consistent_hash.py:34-47 | a new ring (512 slots and 9 replicas by default) has `slots` empty slots and no servers, and is well formed |
| ConsistentHashing.ConsistentHash.FindNextAvailableSlot | load_balancer/consistent_hash.py:87-101 | returns the first free slot clockwise from the start, and `None` exactly when the table is full |
| ConsistentHashing.ConsistentHash.RollbackServerAddition | load_balancer/consistent_hash.py:146-160 | empties exactly the recorded slots of a known server and deletes it; leaves everything unchanged for an unknown one |
| ConsistentHashing.ConsistentHash.AddServer | load_balancer/consistent_hash.py:103-144 | succeeds exactly when the id is new and enough slots are free; each replica then sits where linear probing from Φ led; otherwise nothing changes; the ring stays well formed |
| ConsistentHashing.ConsistentHash.RemoveServer | load_balancer/consistent_hash.py:162-187 | succeeds exactly when the id is known; it then empties exactly that server's slots and deletes it; the ring stays well formed |
| ConsistentHashing.ConsistentHash.GetServer | load_balancer/consistent_hash.py:189-219 | returns the hostname owning the first occupied slot clockwise from H(id); `None` exactly when there are no servers or no replicas |
| ConsistentHashing.ConsistentHash.ServersList | load_balancer/consistent_hash.py:221-228 | lists the servers' hostnames in the order the servers were added (dict insertion order): one per server, the i-th being the hostname of the i-th server added, and exactly the hostnames of the servers |
| ConsistentHashing.ConsistentHash.ServerCount | load_balancer/consistent_hash.py:230-237 | the server count equals the length of the hostname list |
| ConsistentHashing.ConsistentHash.GetRingStatus | load_balancer/consistent_hash.py:239-261 | counts the occupied slots; occupied plus free is the ring size; on a valid ring there are `v` occupied slots per server |
| ConsistentHashing.ConsistentHash.ValidateRingIntegrity | load_balancer/consistent_hash.py:263-290 | valid exactly when there are no issues, exactly when integrity holds; every issue is a real violation and every violation is reported; every state the operations leave is reported valid |
| ConsistentHashing.DistinctKeysCount | load_balancer/consistent_hash.py:237 | the dictionary's key order has one entry per server |
| SlotScan.Step | load_balancer/consistent_hash.py:98 | the i-th slot clockwise from a start lies on the ring |
| SlotScan.Distance | load_balancer/consistent_hash.py:97-98 | every slot is reached from any start within one turn of the ring |
| SlotScan.FirstFrom | load_balancer/consistent_hash.py:97-101 | the scan returns the first slot of the requested kind clockwise, or reports that there is none |
| SlotScan.FirstFromIs | load_balancer/consistent_hash.py:209-216 | the first matching slot clockwise is the scan's answer, whatever loop found it |
| SlotScan.NextFree | load_balancer/consistent_hash.py:97-101 | the probe's answer is a free slot of the ring |
| SlotScan.Owner | load_balancer/consistent_hash.py:209-216 | the owner found clockwise is a server that occupies some slot |
| SlotScan.NextFreeNone | load_balancer/consistent_hash.py:97-101 | the probe finds no slot exactly when the ring is full |
| SlotScan.NextFreeFound | load_balancer/consistent_hash.py:97-100 | the probed slot is free and every slot passed over is occupied |
| SlotScan.DistanceOfStep | load_balancer/consistent_hash.py:97-98 | walking d steps and measuring the distance back gives d |
| SlotScan.DistanceNext | hashing.py:31-32 | one more probe step is one slot further round the ring |
| SlotScan.OwnerSpec | load_balancer/consistent_hash.py:209-219 | the clockwise scan finds no server exactly when every slot is empty |
| SlotScan.Evict | load_balancer/consistent_hash.py:179-180 | eviction empties exactly the slots holding the server |
| SlotScan.OwnerAfterEvict | load_balancer/consistent_hash.py:209-216 | evicting a server does not change the owner of a request that server did not own |
| SlotScan.FreeCount | load_balancer/consistent_hash.py:251 | free slots never outnumber the slots |
| SlotScan.OccupiedCount | load_balancer/consistent_hash.py:246 | occupied slots never outnumber the slots |
| SlotScan.OccupiedPlusFree | load_balancer/consistent_hash.py:246-251 | occupied and free slots together make up the ring |
| SlotScan.FreeCountZero | load_balancer/consistent_hash.py:101 | no free slot exactly when the ring is full |
| SlotScan.FreeCountAll | load_balancer/consistent_hash.py:44 | every slot is free exactly when the ring is empty |
| SlotScan.FreeCountUpdate | load_balancer/consistent_hash.py:138 | writing one slot changes the free count by that slot's change alone |
| EntryOrder.StrLeTotal | hashing.py:37 | any two server names are comparable |
| EntryOrder.StrLeTransitive | hashing.py:37 | name comparison is transitive |
| EntryOrder.StrLeAntisymmetric | hashing.py:37 | names that compare both ways are equal |
| EntryOrder.StrLe | hashing.py:37 | a prefix of a name orders before it, and the first characters of ordered names are in order |
| EntryOrder.EntryLe | hashing.py:37 | tuples order by position first, and by name on equal positions |
| EntryOrder.EntryLeTotal | hashing.py:37 | any two `(position, name)` tuples are comparable |
| EntryOrder.EntryLeTransitive | hashing.py:37 | the tuple order is transitive |
| EntryOrder.EntryLeAntisymmetric | hashing.py:37 | tuples that compare both ways are equal |
| EntryOrder.Insort | hashing.py:37 | insertion adds exactly the new entry |
| EntryOrder.InsortSorted | hashing.py:37 | insertion into a sorted list keeps it sorted |
| EntryOrder.Sort | load_balancer/hashing.py:22 | sorting is a permutation |
| EntryOrder.SortSorted | load_balancer/hashing.py:22 | sorting yields a sorted list |
| EntryOrder.SortedUnique | load_balancer/hashing.py:22 | two sorted lists with the same entries are equal, so a sorted ring is determined by its entries |
| EntryOrder.SortOfSorted | load_balancer/hashing.py:22 | sorting a sorted list changes nothing |
| EntryOrder.Without | load_balancer/hashing.py:25 | the filtered ring holds exactly the entries of other servers |
| EntryOrder.WithoutSorted | hashing.py:39-47 | filtering out a server keeps the ring sorted |
| EntryOrder.WithoutCount | load_balancer/hashing.py:25 | filtering keeps every entry of other servers with its multiplicity and drops all entries of the server |
| EntryOrder.WithoutLast | load_balancer/hashing.py:25 | the filter keeps the last entry exactly when it belongs to another server |
| EntryOrder.NamedCountAppend | load_balancer/hashing.py:20 | a server's entry count over two lists is the sum of the counts |
| EntryOrder.NamedCountInsort | hashing.py:37 | insertion adds one entry to the count of the inserted server only |
| EntryOrder.NamedCountSort | load_balancer/hashing.py:22 | sorting keeps each server's entry count |
| EntryOrder.RemoveUndoesAdd | hashing.py:39-47 | removing a server whose entries were added to a ring without it restores that ring |
| EntryOrder.FirstAtOrAfter | load_balancer/hashing.py:28-30 | the index of the first entry at or after the hash; every earlier entry lies before it |
| EntryOrder.FirstAtOrAfterIs | hashing.py:59 | any index satisfying the boundary condition is the first one at or after the hash |
| EntryOrder.Successor | hashing.py:62-65 | the chosen entry belongs to the ring |
| EntryOrder.SuccessorNearest | hashing.py:59-65 | the chosen entry is the nearest one clockwise from the hash, wrapping to the smallest position |
| EntryOrder.SuccessorMinimal | hashing.py:59-65 | the chosen entry is the least, in tuple order, of all eligible entries |
| EntryOrder.SuccessorAfterRemove | hashing.py:39-47 | removing a server that does not serve a hash leaves that hash's server unchanged |
| EntryOrder.SuccessorAfterAdd | hashing.py:25-37 | after adding a server, each hash goes to its previous server or to the new one, whether or not the name was already on the ring |
| ProbedHashing.HashRequest | hashing.py:15-19 | a non-integer id is a `TypeError`, and only such an id; the hash lands on a slot |
| ProbedHashing.HashServer | hashing.py:21-23 | the virtual-node hash lands on a slot |
| ProbedHashing.PositionsSpec | hashing.py:8-9 | a position is occupied by the list exactly when some entry sits there |
| ProbedHashing.NamedPositionsSpec | hashing.py:42-44 | the positions a server frees are exactly those of its entries |
| ProbedHashing.FreeSlotExists | hashing.py:31-32 | when fewer slots are occupied than exist, the probe has a free slot to reach |
| ProbedHashing.FullRingProbeSpins | hashing.py:31-32 | when no slot is free, every position the probe visits is occupied, so the `while` never exits |
| ProbedHashing.InsortPositions | hashing.py:34-37 | insertion adds exactly the new position to the list's positions |
| ProbedHashing.InsortAscending | hashing.py:31-37 | inserting at a free position keeps positions strictly increasing |
| ProbedHashing.WithoutAscending | hashing.py:42-47 | filtering keeps positions strictly increasing |
| ProbedHashing.WithoutPositions | hashing.py:42-47 | the kept entries' positions are the old ones minus the removed server's |
| ProbedHashing.PlaceConsistent | hashing.py:34-37 | placing at a free slot keeps list and occupied set in agreement, with one more occupied slot |
| ProbedHashing.DropConsistent | hashing.py:39-47 | removing a server keeps list and occupied set in agreement |
| ProbedHashing.ProbesExtend | hashing.py:27-32 | each virtual node sits where linear probing from its hash led, given the earlier placements |
| ProbedHashing.PlacedStep | hashing.py:27-37 | each placement adds one entry of the server and one occupied slot, and keeps the ring consistent |
| ProbedHashing.ScanKeep | hashing.py:45-46 | keeping an entry of another server extends the filtered list by it and frees nothing |
| ProbedHashing.ScanDrop | hashing.py:43-44 | dropping an entry of the server frees its position, which was still in the set, so `set.remove` never raises |
| ProbedHashing.ScanDone | hashing.py:39-47 | after the scan the ring is exactly the other servers' entries, exactly the server's positions are freed, and list and set still agree |
| ProbedHashing.StillOccupied | hashing.py:44 | every position `set.remove` is asked to drop is still in the set, so it never raises |
| ProbedHashing.RemoveUndoesAdd | hashing.py:25-47 | removing a newly added server restores both the entry list and the occupied set |
| ProbedHashing.LinearProbe | hashing.py:31-32 | the probe stops at a free slot, having passed only occupied ones |
| ProbedHashing.BisectLeft | hashing.py:59 | the index splits the positions into those below the hash and those at or above it |
| ProbedHashing.PlaceStep | hashing.py:34-37 | one placement extends the placed positions and entries by exactly that position |
| ProbedHashing.ConsistentHash.constructor | hashing.py:5-9 | a new ring (512 slots and 9 virtual nodes by default) is empty and consistent |
| ProbedHashing.ConsistentHash.AddServer | hashing.py:25-37 | adds `vnodes` entries of the server at the positions linear probing chose, marks exactly those `vnodes` positions occupied, and keeps the ring consistent |
| ProbedHashing.ConsistentHash.RemoveServer | hashing.py:39-47 | drops exactly the server's entries and frees exactly their positions; the ring stays consistent |
| ProbedHashing.ConsistentHash.GetServer | hashing.py:49-65 | `None` on an empty ring; otherwise `TypeError` exactly for a non-integer id, else the name of the clockwise successor of the hash |
| Sha1Hashing.Hash | load_balancer/hashing.py:14-15 | the key hash lands on a slot |
| Sha1Hashing.DecimalString | load_balancer/hashing.py:19 | `str(j)` is a non-empty string of decimal digits |
| Sha1Hashing.DecimalRoundTrip | load_balancer/hashing.py:19 | reading back `str(j)` gives `j` |
| Sha1Hashing.VNodeKey | load_balancer/hashing.py:19 | the key is the server name, a dash, then decimal digits |
| Sha1Hashing.LastDashOfKey | load_balancer/hashing.py:19 | the last dash of a virtual-node key separates server and index |
| Sha1Hashing.VNodeKeyInjective | load_balancer/hashing.py:19 | distinct (server, index) pairs give distinct virtual-node keys |
| Sha1Hashing.VNodes | load_balancer/hashing.py:18-21 | a server contributes `vnodes` entries, each on the ring and carrying its name |
| Sha1Hashing.Build | load_balancer/hashing.py:10-12 | the constructed ring holds only entries on the ring's slots that belong to the listed servers |
| Sha1Hashing.BuildSpec | load_balancer/hashing.py:5-12 | the constructed ring is sorted and holds exactly the virtual nodes of its servers |
| Sha1Hashing.BuildOrderIrrelevant | load_balancer/hashing.py:10-12 | swapping two servers in the constructor's list gives the same ring |
| Sha1Hashing.AllVNodesSwap | load_balancer/hashing.py:10-12 | the virtual nodes of a server list do not depend on the order of adjacent servers |
| Sha1Hashing.AllVNodesAppend | load_balancer/hashing.py:10-12 | the virtual nodes of two lists of servers are those of each |
| Sha1Hashing.AddOrderIrrelevant | load_balancer/hashing.py:17-22 | adding two servers in either order gives the same ring |
| Sha1Hashing.RemoveUndoesAdd | load_balancer/hashing.py:17-25 | removing a server just added to a ring without it restores the ring |
| Sha1Hashing.AddMovesOnlyToNew | load_balancer/hashing.py:17-32 | after adding a server, each key goes to its previous server or to the new one, whether or not the server was already on the ring |
| Sha1Hashing.RemoveMovesOnlyOwn | load_balancer/hashing.py:24-32 | removing a server leaves every key it did not serve where it was |
| Sha1Hashing.InsertKeepsRing | load_balancer/hashing.py:20-22 | appending one server's entries and sorting keeps the ring sorted and on the slots, with that many more entries of the server |
| Sha1Hashing.AllNamedCount | load_balancer/hashing.py:17-21 | a list holding only one server's entries counts them all |
| Sha1Hashing.NoneNamedCount | load_balancer/hashing.py:24-25 | a list with no entry of a server counts none |
| Sha1Hashing.ConsistentHash.constructor | load_balancer/hashing.py:5-12 | the ring is the one built by adding the given servers in turn (no servers, 512 slots and 9 virtual nodes by default) |
| Sha1Hashing.ConsistentHash.AddServer | load_balancer/hashing.py:17-22 | the ring becomes the sorted old ring plus the server's virtual nodes; `vnodes` more entries of the server |
| Sha1Hashing.ConsistentHash.RemoveServer | load_balancer/hashing.py:24-25 | the ring keeps exactly the other servers' entries, in order, and none of the server's |
| Sha1Hashing.ConsistentHash.GetServer | load_balancer/hashing.py:27-32 | `IndexError` exactly on an empty ring; otherwise the name of the clockwise successor of the key's hash |

## Left out

- Logging, the web service around the rings, containers and the statistical claims about even load are not modelled. None of them affects the rings' state.
- The MD5 digest (`hashing.py:13`) and the SHA-1 digest (`load_balancer/hashing.py:15`) are constructor parameters of type `string -> nat`. Their bit-level computation is not modelled, and no property depends on what they compute.
- `str(key)` and `str(server)` are not modelled for non-string values. Keys and server names are strings throughout.
- The `server_map` field of `load_balancer/hashing.py:9` is never read or written after construction, so it is left out.
- The `servers=None` default of `load_balancer/hashing.py:5` is the empty sequence.
- The status dictionary of `get_ring_status` and the issue strings of `validate_ring_integrity` become the datatypes `RingStatus` and `Issue`. The text of the messages is not modelled.
- Python's `isinstance(x, int)` also accepts booleans. `ProbedHashing.RequestId` has no separate case for them: a boolean is one more integer id.
- Slots are natural numbers. The source could in principle hold a negative position in `virtual_positions`, but no public operation stores one.
- ConsistentHashing.ConsistentHash.constructor: requires `slots > 0`. With zero slots the source divides by zero at the first hash.
- ProbedHashing.ConsistentHash.constructor: requires `numSlots > 0`, for the same reason.
- Sha1Hashing.ConsistentHash.constructor: requires `numSlots > 0`, for the same reason.
- ProbedHashing.ConsistentHash.AddServer: requires room for `vnodes` more entries (`|occupiedSlots| + vnodes <= numSlots`). On a fuller ring the source's probe loop (`hashing.py:31-32`) never terminates, as `ProbedHashing.FullRingProbeSpins` states. A non-terminating call has no result to model, and the source gives no sign of what a full ring should do instead (raise, refuse, or grow).
- ProbedHashing.ConsistentHash.AddServer: the positions it chose are a ghost out-parameter. `ProbedHashing.PlacedStep` and `ProbedHashing.ProbesExtend` prove the same facts about values.
- Concurrency is not modelled. The ring classes take no locks. The web service (`load_balancer/load_balancer.py:9`) serialises its calls to `add_server` and `remove_server` under one lock. Each operation is modelled as one atomic step.
- A negative `virtual_servers` or `vnodes` is excluded by the type `nat`. In the source, `range` of a negative number is empty, so such a ring places no replicas, exactly as with zero.
- The digest functions come first among the constructor parameters of the `hashing.py` and `load_balancer/hashing.py` rings, because they have no default. The remaining parameters keep the source's defaults.
