/**
 * Ring entries of the two sorted-list rings: `(position, name)` pairs kept
 * in Python's tuple order, with the list operations both rings use
 * (`bisect.insort`, `list.sort`, filtering out one server, and the
 * clockwise successor of a hash).
 */
module EntryOrder {

  /** A virtual node: the slot it sits at and the name of its server. */
  datatype Entry = Entry(pos: nat, name: string)

  /** Python's `<=` on strings: lexicographic by code point. */
  predicate StrLe(a: string, b: string)
    ensures a <= b ==> StrLe(a, b)
    ensures StrLe(a, b) && |a| > 0 ==> |b| > 0 && a[0] <= b[0]
  {
    |a| == 0 || (|b| > 0 && (a[0] < b[0] || (a[0] == b[0] && StrLe(a[1..], b[1..]))))
  }

  lemma {:induction false} StrLeTotal(a: string, b: string)
    ensures StrLe(a, b) || StrLe(b, a)
  {
    if |a| > 0 && |b| > 0 && a[0] == b[0] {
      StrLeTotal(a[1..], b[1..]);
    }
  }

  lemma {:induction false} StrLeTransitive(a: string, b: string, c: string)
    requires StrLe(a, b) && StrLe(b, c)
    ensures StrLe(a, c)
  {
    if |a| > 0 && a[0] == b[0] && b[0] == c[0] {
      StrLeTransitive(a[1..], b[1..], c[1..]);
    }
  }

  lemma {:induction false} StrLeAntisymmetric(a: string, b: string)
    requires StrLe(a, b) && StrLe(b, a)
    ensures a == b
  {
    if |a| > 0 {
      StrLeAntisymmetric(a[1..], b[1..]);
      assert a == [a[0]] + a[1..] && b == [b[0]] + b[1..];
    }
  }

  /** Python's `<=` on `(pos, name)` tuples. */
  predicate EntryLe(x: Entry, y: Entry)
    ensures EntryLe(x, y) ==> x.pos <= y.pos
    ensures x.pos < y.pos ==> EntryLe(x, y)
    ensures x.pos == y.pos ==> (EntryLe(x, y) <==> StrLe(x.name, y.name))
  {
    x.pos < y.pos || (x.pos == y.pos && StrLe(x.name, y.name))
  }

  lemma EntryLeTotal(x: Entry, y: Entry)
    ensures EntryLe(x, y) || EntryLe(y, x)
  {
    StrLeTotal(x.name, y.name);
  }

  lemma EntryLeTransitive(x: Entry, y: Entry, z: Entry)
    requires EntryLe(x, y) && EntryLe(y, z)
    ensures EntryLe(x, z)
  {
    if x.pos == y.pos == z.pos {
      StrLeTransitive(x.name, y.name, z.name);
    }
  }

  lemma EntryLeAntisymmetric(x: Entry, y: Entry)
    requires EntryLe(x, y) && EntryLe(y, x)
    ensures x == y
  {
    StrLeAntisymmetric(x.name, y.name);
  }

  /** Sorted ascending by `(pos, name)`. */
  ghost predicate Sorted(s: seq<Entry>)
  {
    forall i, j :: 0 <= i < j < |s| ==> EntryLe(s[i], s[j])
  }

  /** `bisect.insort`: insert `e` after every entry that is `<= e`. */
  function Insort(s: seq<Entry>, e: Entry): (r: seq<Entry>)
    ensures multiset(r) == multiset(s) + multiset{e}
    ensures |r| == |s| + 1
  {
    if s == [] || !EntryLe(s[0], e) then [e] + s
    else
      assert s == [s[0]] + s[1..];
      [s[0]] + Insort(s[1..], e)
  }

  /** Inserting into a sorted list keeps it sorted. */
  lemma {:induction false} InsortSorted(s: seq<Entry>, e: Entry)
    requires Sorted(s)
    ensures Sorted(Insort(s, e))
  {
    var r := Insort(s, e);
    if s == [] {
    } else if !EntryLe(s[0], e) {
      EntryLeTotal(s[0], e);
      forall i | 0 <= i < |s| ensures EntryLe(e, s[i]) {
        if i > 0 {
          EntryLeTransitive(e, s[0], s[i]);
        }
      }
    } else {
      InsortSorted(s[1..], e);
      var rest := Insort(s[1..], e);
      forall i | 0 <= i < |rest| ensures EntryLe(s[0], rest[i]) {
        assert rest[i] in multiset(rest);
        if rest[i] != e {
          assert rest[i] in s[1..];
        }
      }
    }
  }

  /** `list.sort` on entries, as insertion of each entry in turn. */
  function Sort(s: seq<Entry>): (r: seq<Entry>)
    ensures multiset(r) == multiset(s)
    ensures |r| == |s|
  {
    if s == [] then []
    else
      assert s == s[..|s| - 1] + [s[|s| - 1]];
      Insort(Sort(s[..|s| - 1]), s[|s| - 1])
  }

  /** Sorting sorts. */
  lemma {:induction false} SortSorted(s: seq<Entry>)
    ensures Sorted(Sort(s))
  {
    if s != [] {
      SortSorted(s[..|s| - 1]);
      InsortSorted(Sort(s[..|s| - 1]), s[|s| - 1]);
    }
  }

  /**
   * A sorted list is determined by its elements: two sorted lists with the
   * same elements are equal. So any sorting algorithm gives the same result
   * as `Sort`.
   */
  lemma {:induction false} SortedUnique(a: seq<Entry>, b: seq<Entry>)
    requires Sorted(a) && Sorted(b) && multiset(a) == multiset(b)
    ensures a == b
  {
    assert |a| == |multiset(a)| == |multiset(b)| == |b|;
    if a != [] {
      assert b[0] in multiset(a) && a[0] in multiset(b);
      SmallestFirst(a, b[0]);
      SmallestFirst(b, a[0]);
      EntryLeAntisymmetric(a[0], b[0]);
      DropFirst(a);
      DropFirst(b);
      SortedUnique(a[1..], b[1..]);
    }
  }

  /** The first entry of a sorted list is at most each of its entries. */
  lemma SmallestFirst(s: seq<Entry>, x: Entry)
    requires Sorted(s) && x in s
    ensures EntryLe(s[0], x)
  {
    var i :| 0 <= i < |s| && s[i] == x;
    if i == 0 {
      EntryLeTotal(x, x);
    }
  }

  lemma DropFirst(s: seq<Entry>)
    requires s != []
    ensures multiset(s[1..]) == multiset(s) - multiset{s[0]}
  {
    assert s == [s[0]] + s[1..];
  }

  /** A sorted list's elements are its sorted order. */
  lemma SortOfSorted(s: seq<Entry>)
    requires Sorted(s)
    ensures Sort(s) == s
  {
    SortSorted(s);
    SortedUnique(Sort(s), s);
  }

  /** The list with every entry of server `name` dropped, the others in their order. */
  function Without(s: seq<Entry>, name: string): (r: seq<Entry>)
    ensures |r| <= |s|
    ensures forall x :: x in r <==> x in s && x.name != name
  {
    if s == [] then []
    else Without(s[..|s| - 1], name) + (if s[|s| - 1].name == name then [] else [s[|s| - 1]])
  }

  /** Dropping entries keeps a sorted list sorted. */
  lemma {:induction false} WithoutSorted(s: seq<Entry>, name: string)
    requires Sorted(s)
    ensures Sorted(Without(s, name))
  {
    if s != [] {
      var init := s[..|s| - 1];
      var last := s[|s| - 1];
      WithoutSorted(init, name);
      var w := Without(init, name);
      forall i | 0 <= i < |w| ensures EntryLe(w[i], last) {
        assert w[i] in init;
      }
    }
  }

  /** How often each entry occurs once server `name` is dropped. */
  lemma {:induction false} WithoutCount(s: seq<Entry>, name: string, x: Entry)
    ensures multiset(Without(s, name))[x] == if x.name == name then 0 else multiset(s)[x]
  {
    if s != [] {
      var init := s[..|s| - 1];
      var last := s[|s| - 1];
      WithoutCount(init, name, x);
      WithoutLast(s, name);
      MultisetLast(s);
    }
  }

  lemma MultisetLast(s: seq<Entry>)
    requires s != []
    ensures multiset(s) == multiset(s[..|s| - 1]) + multiset{s[|s| - 1]}
  {
    assert s == s[..|s| - 1] + [s[|s| - 1]];
  }

  /** One step of the filter: the last entry is kept unless it belongs to `name`. */
  lemma WithoutLast(s: seq<Entry>, name: string)
    requires s != []
    ensures var last := s[|s| - 1];
      multiset(Without(s, name))
        == multiset(Without(s[..|s| - 1], name)) + (if last.name == name then multiset{} else multiset{last})
  {
  }

  /** Number of entries of server `name`. */
  function NamedCount(s: seq<Entry>, name: string): (c: nat)
    ensures c <= |s|
  {
    if s == [] then 0
    else NamedCount(s[..|s| - 1], name) + (if s[|s| - 1].name == name then 1 else 0)
  }

  lemma {:induction false} NamedCountAppend(a: seq<Entry>, b: seq<Entry>, name: string)
    ensures NamedCount(a + b, name) == NamedCount(a, name) + NamedCount(b, name)
  {
    if b != [] {
      assert (a + b)[..|a + b| - 1] == a + b[..|b| - 1];
      assert (a + b)[|a + b| - 1] == b[|b| - 1];
      NamedCountAppend(a, b[..|b| - 1], name);
    } else {
      assert a + b == a;
    }
  }

  /** Inserting an entry adds one to its server's count and to no other. */
  lemma {:induction false} NamedCountInsort(s: seq<Entry>, e: Entry, name: string)
    ensures NamedCount(Insort(s, e), name) == NamedCount(s, name) + (if e.name == name then 1 else 0)
  {
    if s == [] || !EntryLe(s[0], e) {
      NamedCountAppend([e], s, name);
    } else {
      NamedCountInsort(s[1..], e, name);
      NamedCountAppend([s[0]], Insort(s[1..], e), name);
      NamedCountAppend([s[0]], s[1..], name);
      assert s == [s[0]] + s[1..];
    }
  }

  /** Sorting keeps every server's count. */
  lemma {:induction false} NamedCountSort(s: seq<Entry>, name: string)
    ensures NamedCount(Sort(s), name) == NamedCount(s, name)
  {
    if s != [] {
      NamedCountSort(s[..|s| - 1], name);
      NamedCountInsort(Sort(s[..|s| - 1]), s[|s| - 1], name);
    }
  }

  /** Every entry of `s` belongs to server `name`. */
  ghost predicate AllNamed(s: seq<Entry>, name: string)
  {
    forall i :: 0 <= i < |s| ==> s[i].name == name
  }

  /** No entry of `s` belongs to server `name`. */
  ghost predicate NoneNamed(s: seq<Entry>, name: string)
  {
    forall i :: 0 <= i < |s| ==> s[i].name != name
  }

  /**
   * Removing a server undoes adding it: if `added` is a sorted list holding
   * the entries of sorted `s` plus entries of server `name` only, and `s`
   * had none of `name`, dropping `name` from `added` gives back `s`.
   */
  lemma RemoveUndoesAdd(s: seq<Entry>, added: seq<Entry>, extra: seq<Entry>, name: string)
    requires Sorted(s) && Sorted(added)
    requires NoneNamed(s, name) && AllNamed(extra, name)
    requires multiset(added) == multiset(s) + multiset(extra)
    ensures Without(added, name) == s
  {
    var w := Without(added, name);
    forall x ensures multiset(w)[x] == multiset(s)[x] {
      WithoutCount(added, name, x);
      if x.name == name {
        assert x !in s;
      } else {
        assert x !in extra;
      }
    }
    assert multiset(w) == multiset(s);
    WithoutSorted(added, name);
    SortedUnique(w, s);
  }

  /**
   * The index a request hashed to `h` resolves to: the first entry whose
   * position is at least `h`, or the length of the list when there is none.
   */
  function FirstAtOrAfter(s: seq<Entry>, h: nat): (i: nat)
    ensures i <= |s|
    ensures forall k :: 0 <= k < i ==> s[k].pos < h
    ensures i < |s| ==> s[i].pos >= h
  {
    if s == [] || s[0].pos >= h then 0 else 1 + FirstAtOrAfter(s[1..], h)
  }

  /** The entry a request hashed to `h` goes to: the first at or after `h`, else the first of all. */
  function Successor(s: seq<Entry>, h: nat): (e: Entry)
    requires s != []
    ensures e in s
  {
    var i := FirstAtOrAfter(s, h);
    if i == |s| then s[0] else s[i]
  }

  /**
   * On a sorted ring the successor is the entry clockwise nearest to `h`:
   * the smallest position at or after `h`, or, past the last entry, the
   * smallest position of all.
   */
  lemma SuccessorNearest(s: seq<Entry>, h: nat)
    requires s != [] && Sorted(s)
    ensures forall k :: 0 <= k < |s| && s[k].pos >= h ==> h <= Successor(s, h).pos <= s[k].pos
    ensures (forall k :: 0 <= k < |s| ==> s[k].pos < h) ==>
      forall k :: 0 <= k < |s| ==> Successor(s, h).pos <= s[k].pos
  {
    var i := FirstAtOrAfter(s, h);
    forall k | 0 <= k < |s| && s[k].pos >= h ensures h <= Successor(s, h).pos <= s[k].pos {
      if i < k {
        assert EntryLe(s[i], s[k]);
      }
    }
    forall k | 0 <= k < |s| ensures i == |s| ==> Successor(s, h).pos <= s[k].pos {
      if 0 < k {
        assert EntryLe(s[0], s[k]);
      }
    }
  }

  /** `FirstAtOrAfter` is determined by its contract. */
  lemma {:induction false} FirstAtOrAfterIs(s: seq<Entry>, h: nat, i: nat)
    requires i <= |s|
    requires forall k :: 0 <= k < i ==> s[k].pos < h
    requires i < |s| ==> s[i].pos >= h
    ensures FirstAtOrAfter(s, h) == i
  {
    if i > 0 {
      FirstAtOrAfterIs(s[1..], h, i - 1);
    }
  }

  /**
   * On a sorted ring the successor of `h` comes no later than any entry at
   * or after `h`, and, when no entry is at or after `h`, no later than any
   * entry at all.
   */
  lemma SuccessorMinimal(s: seq<Entry>, h: nat, x: Entry)
    requires Sorted(s) && x in s
    requires x.pos >= h || forall k :: 0 <= k < |s| ==> s[k].pos < h
    ensures EntryLe(Successor(s, h), x)
  {
    var i := FirstAtOrAfter(s, h);
    var k :| 0 <= k < |s| && s[k] == x;
    EntryLeTotal(x, x);
    if i < |s| {
      assert k >= i;
    } else {
      assert 0 <= k;
    }
  }

  /**
   * Minimal disruption on removal: dropping a server other than the one a
   * hash resolves to leaves that resolution unchanged.
   */
  lemma SuccessorAfterRemove(s: seq<Entry>, h: nat, name: string)
    requires Sorted(s) && s != [] && Successor(s, h).name != name
    ensures Without(s, name) != []
    ensures Successor(Without(s, name), h) == Successor(s, h)
  {
    var w := Without(s, name);
    var e := Successor(s, h);
    assert e in w;
    WithoutSorted(s, name);
    var e' := Successor(w, h);
    assert e' in s;
    if FirstAtOrAfter(s, h) < |s| {
      SuccessorMinimal(w, h, e);
      SuccessorMinimal(s, h, e');
    } else {
      forall k | 0 <= k < |w| ensures w[k].pos < h {
        assert w[k] in s;
      }
      SuccessorMinimal(w, h, e);
      SuccessorMinimal(s, h, e');
    }
    EntryLeAntisymmetric(e, e');
  }

  /**
   * Minimal disruption on addition: once entries of a new server `name` are
   * added, a hash resolves either as before or to the new server.
   */
  lemma SuccessorAfterAdd(s: seq<Entry>, added: seq<Entry>, extra: seq<Entry>, name: string, h: nat)
    requires Sorted(s) && Sorted(added) && s != []
    requires AllNamed(extra, name)
    requires multiset(added) == multiset(s) + multiset(extra)
    ensures added != []
    ensures Successor(added, h) == Successor(s, h) || Successor(added, h).name == name
  {
    assert s[0] in multiset(added);
    var e := Successor(s, h);
    var e' := Successor(added, h);
    if e'.name != name {
      assert e in multiset(added);
      assert forall x :: x in extra ==> x.name == name;
      assert e' in multiset(s) by {
        assert e' in multiset(added);
      }
      if FirstAtOrAfter(added, h) < |added| {
        SuccessorMinimal(s, h, e');
        SuccessorMinimal(added, h, e);
      } else {
        forall k | 0 <= k < |s| ensures s[k].pos < h {
          assert s[k] in multiset(added);
        }
        SuccessorMinimal(s, h, e');
        SuccessorMinimal(added, h, e);
      }
      EntryLeAntisymmetric(e, e');
    }
  }
}
