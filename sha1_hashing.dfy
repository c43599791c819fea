/**
 * The ring of `load_balancer/hashing.py`: a sorted list of
 * `(position, server)` entries. Each server contributes `vnodes` entries
 * hashed from the keys `"<server>-<j>"`; entries that collide simply share
 * a position.
 */
module Sha1Hashing {
  import opened Options
  import opened EntryOrder

  datatype Error = IndexError

  /** `_hash`: the SHA-1 digest of the key, read as an integer, modulo the ring size. */
  function Hash(sha1: string -> nat, numSlots: nat, key: string): (pos: nat)
    requires numSlots > 0
    ensures pos < numSlots
  {
    sha1(key) % numSlots
  }

  /** The character of decimal digit `d`. */
  function Digit(d: nat): (c: char)
    requires d < 10
    ensures '0' <= c <= '9' && c as int - '0' as int == d
  {
    "0123456789"[d]
  }

  predicate IsDigits(s: string)
  {
    forall i :: 0 <= i < |s| ==> '0' <= s[i] <= '9'
  }

  /** `str(n)` for a natural number: its decimal digits, most significant first. */
  function DecimalString(n: nat): (s: string)
    ensures |s| > 0 && IsDigits(s)
  {
    if n < 10 then [Digit(n)] else DecimalString(n / 10) + [Digit(n % 10)]
  }

  /** The number a string of decimal digits denotes. */
  function DecimalValue(s: string): nat
    requires IsDigits(s)
  {
    if s == [] then 0 else 10 * DecimalValue(s[..|s| - 1]) + (s[|s| - 1] as int - '0' as int)
  }

  /** Reading back the decimal digits of `n` gives `n`. */
  lemma {:induction false} DecimalRoundTrip(n: nat)
    ensures DecimalValue(DecimalString(n)) == n
  {
    if n >= 10 {
      DecimalRoundTrip(n / 10);
      var s := DecimalString(n);
      assert s[..|s| - 1] == DecimalString(n / 10);
    }
  }

  /** The key of the j-th virtual node of `server`: `f"{server}-{j}"`. */
  function VNodeKey(server: string, j: nat): (key: string)
    ensures |key| > |server| + 1 && key[..|server|] == server && key[|server|] == '-'
    ensures IsDigits(key[|server| + 1..])
  {
    server + "-" + DecimalString(j)
  }

  /** Index of the last `-` in `s`, or -1 when there is none. */
  function LastDash(s: string): (i: int)
    ensures -1 <= i < |s|
  {
    if s == [] then -1
    else if s[|s| - 1] == '-' then |s| - 1
    else LastDash(s[..|s| - 1])
  }

  lemma {:induction false} LastDashOfKey(prefix: string, digits: string)
    requires IsDigits(digits)
    ensures LastDash(prefix + "-" + digits) == |prefix|
  {
    if digits == [] {
      assert prefix + "-" + digits == prefix + "-";
    } else {
      var init := digits[..|digits| - 1];
      LastDashOfKey(prefix, init);
      assert (prefix + "-" + digits)[..|prefix + "-" + digits| - 1] == prefix + "-" + init;
    }
  }

  /**
   * Virtual node keys never coincide: the server is what precedes the last
   * `-` (digits contain none), the node number what follows it.
   */
  lemma VNodeKeyInjective(s1: string, j1: nat, s2: string, j2: nat)
    requires VNodeKey(s1, j1) == VNodeKey(s2, j2)
    ensures s1 == s2 && j1 == j2
  {
    var key := VNodeKey(s1, j1);
    LastDashOfKey(s1, DecimalString(j1));
    LastDashOfKey(s2, DecimalString(j2));
    assert s1 == key[..|s1|] == s2;
    assert DecimalString(j1) == key[|s1| + 1..] == DecimalString(j2);
    DecimalRoundTrip(j1);
    DecimalRoundTrip(j2);
  }

  /** The entries `add_server` appends for `server`, in the order of `j`. */
  function VNodes(sha1: string -> nat, numSlots: nat, vnodes: nat, server: string): (es: seq<Entry>)
    requires numSlots > 0
    ensures |es| == vnodes
    ensures forall j :: 0 <= j < vnodes ==> es[j].pos < numSlots && es[j].name == server
  {
    seq(vnodes, j requires 0 <= j < vnodes => Entry(Hash(sha1, numSlots, VNodeKey(server, j)), server))
  }

  /** The ring the constructor builds from `servers`, adding them in turn. */
  function Build(sha1: string -> nat, numSlots: nat, vnodes: nat, servers: seq<string>): (ring: seq<Entry>)
    requires numSlots > 0
    ensures forall x :: x in ring ==> x.pos < numSlots && x.name in servers
  {
    if servers == [] then []
    else
      var init := servers[..|servers| - 1];
      var both := Build(sha1, numSlots, vnodes, init) + VNodes(sha1, numSlots, vnodes, servers[|servers| - 1]);
      assert forall x :: x in both ==> x.pos < numSlots && x.name in servers by {
        forall x | x in both ensures x.pos < numSlots && x.name in servers {
          if x in Build(sha1, numSlots, vnodes, init) {
            assert x.name in init;
          }
        }
      }
      assert forall x :: x in Sort(both) ==> x in multiset(both);
      Sort(both)
  }

  /** The virtual nodes of `servers`, server after server. */
  function AllVNodes(sha1: string -> nat, numSlots: nat, vnodes: nat, servers: seq<string>): seq<Entry>
    requires numSlots > 0
  {
    if servers == [] then []
    else AllVNodes(sha1, numSlots, vnodes, servers[..|servers| - 1]) + VNodes(sha1, numSlots, vnodes, servers[|servers| - 1])
  }

  /** A built ring is sorted and holds exactly the virtual nodes of its servers. */
  lemma {:induction false} BuildSpec(sha1: string -> nat, numSlots: nat, vnodes: nat, servers: seq<string>)
    requires numSlots > 0
    ensures Sorted(Build(sha1, numSlots, vnodes, servers))
    ensures multiset(Build(sha1, numSlots, vnodes, servers)) == multiset(AllVNodes(sha1, numSlots, vnodes, servers))
  {
    if servers != [] {
      var init := servers[..|servers| - 1];
      BuildSpec(sha1, numSlots, vnodes, init);
      SortSorted(Build(sha1, numSlots, vnodes, init) + VNodes(sha1, numSlots, vnodes, servers[|servers| - 1]));
    }
  }

  /** The ring built from `servers` does not depend on the order they are listed in. */
  lemma BuildOrderIrrelevant(sha1: string -> nat, numSlots: nat, vnodes: nat, servers: seq<string>, i: nat)
    requires numSlots > 0 && i + 1 < |servers|
    ensures Build(sha1, numSlots, vnodes, servers)
         == Build(sha1, numSlots, vnodes, servers[..i] + [servers[i + 1], servers[i]] + servers[i + 2..])
  {
    var swapped := servers[..i] + [servers[i + 1], servers[i]] + servers[i + 2..];
    BuildSpec(sha1, numSlots, vnodes, servers);
    BuildSpec(sha1, numSlots, vnodes, swapped);
    AllVNodesSwap(sha1, numSlots, vnodes, servers, i);
    SortedUnique(Build(sha1, numSlots, vnodes, servers), Build(sha1, numSlots, vnodes, swapped));
  }

  lemma AllVNodesSwap(sha1: string -> nat, numSlots: nat, vnodes: nat, servers: seq<string>, i: nat)
    requires numSlots > 0 && i + 1 < |servers|
    ensures multiset(AllVNodes(sha1, numSlots, vnodes, servers))
         == multiset(AllVNodes(sha1, numSlots, vnodes, servers[..i] + [servers[i + 1], servers[i]] + servers[i + 2..]))
  {
    var pre := servers[..i];
    var x := servers[i];
    var y := servers[i + 1];
    var post := servers[i + 2..];
    assert servers == pre + ([x] + [y]) + post;
    assert servers[..i] + [servers[i + 1], servers[i]] + servers[i + 2..] == pre + ([y] + [x]) + post;
    AllVNodesAppend(sha1, numSlots, vnodes, pre + ([x] + [y]), post);
    AllVNodesAppend(sha1, numSlots, vnodes, pre, [x] + [y]);
    AllVNodesAppend(sha1, numSlots, vnodes, pre + ([y] + [x]), post);
    AllVNodesAppend(sha1, numSlots, vnodes, pre, [y] + [x]);
    AllVNodesAppend(sha1, numSlots, vnodes, [x], [y]);
    AllVNodesAppend(sha1, numSlots, vnodes, [y], [x]);
  }

  /** The virtual nodes of two lists of servers are those of the first together with those of the second. */
  lemma {:induction false} AllVNodesAppend(sha1: string -> nat, numSlots: nat, vnodes: nat, a: seq<string>, b: seq<string>)
    requires numSlots > 0
    ensures multiset(AllVNodes(sha1, numSlots, vnodes, a + b))
         == multiset(AllVNodes(sha1, numSlots, vnodes, a)) + multiset(AllVNodes(sha1, numSlots, vnodes, b))
  {
    if b == [] {
      assert a + b == a;
    } else {
      var init := b[..|b| - 1];
      var last := VNodes(sha1, numSlots, vnodes, b[|b| - 1]);
      AllVNodesAppend(sha1, numSlots, vnodes, a, init);
      LastOfAppend(a, b);
      assert AllVNodes(sha1, numSlots, vnodes, a + b) == AllVNodes(sha1, numSlots, vnodes, a + init) + last;
    }
  }

  /** The last element and the rest of `a + b`, when `b` is not empty. */
  lemma LastOfAppend(a: seq<string>, b: seq<string>)
    requires b != []
    ensures (a + b)[..|a + b| - 1] == a + b[..|b| - 1]
    ensures (a + b)[|a + b| - 1] == b[|b| - 1]
  {
  }

  /** Adding two servers in either order gives the same ring. */
  lemma AddOrderIrrelevant(ring: seq<Entry>, a: seq<Entry>, b: seq<Entry>)
    ensures Sort(Sort(ring + a) + b) == Sort(Sort(ring + b) + a)
  {
    SortSorted(Sort(ring + a) + b);
    SortSorted(Sort(ring + b) + a);
    assert multiset(Sort(Sort(ring + a) + b)) == multiset(ring) + multiset(a) + multiset(b);
    assert multiset(Sort(Sort(ring + b) + a)) == multiset(ring) + multiset(a) + multiset(b);
    SortedUnique(Sort(Sort(ring + a) + b), Sort(Sort(ring + b) + a));
  }

  /** `remove_server` undoes `add_server` of a server that was not on the ring. */
  lemma RemoveUndoesAdd(sha1: string -> nat, numSlots: nat, vnodes: nat, ring: seq<Entry>, server: string)
    requires numSlots > 0 && Sorted(ring) && NoneNamed(ring, server)
    ensures Without(Sort(ring + VNodes(sha1, numSlots, vnodes, server)), server) == ring
  {
    var es := VNodes(sha1, numSlots, vnodes, server);
    SortSorted(ring + es);
    EntryOrder.RemoveUndoesAdd(ring, Sort(ring + es), es, server);
  }

  /**
   * Adding a server moves keys only to that server: every key is served as
   * before or by the newcomer.
   */
  lemma AddMovesOnlyToNew(sha1: string -> nat, numSlots: nat, vnodes: nat, ring: seq<Entry>, server: string, key: string)
    requires numSlots > 0 && Sorted(ring) && ring != []
    ensures var added := Sort(ring + VNodes(sha1, numSlots, vnodes, server));
      var h := Hash(sha1, numSlots, key);
      added != [] && (Successor(added, h) == Successor(ring, h) || Successor(added, h).name == server)
  {
    var es := VNodes(sha1, numSlots, vnodes, server);
    SortSorted(ring + es);
    SuccessorAfterAdd(ring, Sort(ring + es), es, server, Hash(sha1, numSlots, key));
  }

  /** Removing a server moves only that server's keys. */
  lemma RemoveMovesOnlyOwn(sha1: string -> nat, numSlots: nat, ring: seq<Entry>, server: string, key: string)
    requires numSlots > 0 && Sorted(ring) && ring != []
    requires Successor(ring, Hash(sha1, numSlots, key)).name != server
    ensures Without(ring, server) != []
    ensures Successor(Without(ring, server), Hash(sha1, numSlots, key)) == Successor(ring, Hash(sha1, numSlots, key))
  {
    SuccessorAfterRemove(ring, Hash(sha1, numSlots, key), server);
  }

  /**
   * Sorting a well-formed ring together with the entries of one server gives
   * a well-formed ring that holds each of those entries once more.
   */
  lemma InsertKeepsRing(ring: seq<Entry>, es: seq<Entry>, server: string, numSlots: nat)
    requires Sorted(ring) && forall i :: 0 <= i < |ring| ==> ring[i].pos < numSlots
    requires forall i :: 0 <= i < |es| ==> es[i].pos < numSlots && es[i].name == server
    ensures Sorted(Sort(ring + es))
    ensures forall i :: 0 <= i < |Sort(ring + es)| ==> Sort(ring + es)[i].pos < numSlots
    ensures NamedCount(Sort(ring + es), server) == NamedCount(ring, server) + |es|
  {
    var added := Sort(ring + es);
    SortSorted(ring + es);
    NamedCountSort(ring + es, server);
    NamedCountAppend(ring, es, server);
    AllNamedCount(es, server);
    forall i | 0 <= i < |added| ensures added[i].pos < numSlots {
      assert added[i] in multiset(ring + es);
    }
  }

  class ConsistentHash {
    const numSlots: nat
    const vnodes: nat
    /** The SHA-1 digest of a key, read as an integer. */
    const sha1: string -> nat
    /** Entries sorted by `(position, name)`. */
    var ring: seq<Entry>

    ghost predicate Valid()
      reads this
    {
      numSlots > 0 && Sorted(ring) && forall i :: 0 <= i < |ring| ==> ring[i].pos < numSlots
    }

    /** Builds the ring by adding `servers` in turn; `None` is the empty list. */
    constructor (sha1: string -> nat, servers: seq<string> := [], numSlots: nat := 512, vnodes: nat := 9)
      requires numSlots > 0
      ensures Valid()
      ensures this.numSlots == numSlots && this.vnodes == vnodes && this.sha1 == sha1
      ensures ring == Build(sha1, numSlots, vnodes, servers)
    {
      this.numSlots := numSlots;
      this.vnodes := vnodes;
      this.sha1 := sha1;
      ring := [];
      new;
      var i := 0;
      while i < |servers|
        invariant i <= |servers|
        invariant Valid()
        invariant this.numSlots == numSlots && this.vnodes == vnodes && this.sha1 == sha1
        invariant ring == Build(sha1, numSlots, vnodes, servers[..i])
      {
        assert servers[..i + 1][..i] == servers[..i];
        AddServer(servers[i]);
        i := i + 1;
      }
      assert servers[..i] == servers;
    }

    /** Appends the `vnodes` entries of `server`, then sorts the ring. The name is not checked. */
    method AddServer(server: string)
      requires Valid()
      modifies this
      ensures Valid()
      ensures ring == Sort(old(ring) + VNodes(sha1, numSlots, vnodes, server))
      ensures multiset(ring) == multiset(old(ring)) + multiset(VNodes(sha1, numSlots, vnodes, server))
      ensures NamedCount(ring, server) == NamedCount(old(ring), server) + vnodes
    {
      ghost var es := VNodes(sha1, numSlots, vnodes, server);
      ghost var ring0 := ring;
      var j := 0;
      while j < vnodes
        invariant j <= vnodes
        invariant ring == ring0 + es[..j]
      {
        var vnodeKey := VNodeKey(server, j);
        var pos := Hash(sha1, numSlots, vnodeKey);
        assert es[..j + 1] == es[..j] + [Entry(pos, server)];
        ring := ring + [Entry(pos, server)];
        j := j + 1;
      }
      assert es[..j] == es;
      InsertKeepsRing(ring0, es, server, numSlots);
      ring := Sort(ring);
    }

    /** Keeps the entries of every other server, in order. */
    method RemoveServer(server: string)
      requires Valid()
      modifies this
      ensures Valid()
      ensures ring == Without(old(ring), server)
      ensures NamedCount(ring, server) == 0
    {
      WithoutSorted(ring, server);
      ring := Without(ring, server);
      NoneNamedCount(ring, server);
    }

    /**
     * The server of the first entry at or after the key's hash, else of the
     * first entry; an empty ring fails with `IndexError`.
     */
    method GetServer(key: string) returns (r: Result<string, Error>)
      requires Valid()
      ensures r.Failure? <==> ring == []
      ensures ring != [] ==> r == Success(Successor(ring, Hash(sha1, numSlots, key)).name)
    {
      var pos := Hash(sha1, numSlots, key);
      var i := 0;
      while i < |ring|
        invariant i <= |ring|
        invariant forall k :: 0 <= k < i ==> ring[k].pos < pos
      {
        if ring[i].pos >= pos {
          FirstAtOrAfterIs(ring, pos, i);
          return Success(ring[i].name);
        }
        i := i + 1;
      }
      if ring == [] {
        return Failure(IndexError);
      }
      FirstAtOrAfterIs(ring, pos, i);
      return Success(ring[0].name);
    }
  }

  lemma {:induction false} AllNamedCount(s: seq<Entry>, name: string)
    requires AllNamed(s, name)
    ensures NamedCount(s, name) == |s|
  {
    if s != [] {
      AllNamedCount(s[..|s| - 1], name);
    }
  }

  lemma {:induction false} NoneNamedCount(s: seq<Entry>, name: string)
    requires NoneNamed(s, name)
    ensures NamedCount(s, name) == 0
  {
    if s != [] {
      NoneNamedCount(s[..|s| - 1], name);
    }
  }
}
