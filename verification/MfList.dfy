/**
 The intrusive circular doubly linked list: a head and its entries form a ring, and every
 operation is one on the sequence of entries.
 */
module MfList {

  /** `MF_LIST_ENTRY`, embedded in the element that carries it. */
  class Entry {
    var next: Entry?
    var prev: Entry?

    constructor ()
    {
      next, prev := null, null;
    }
  }

  function Succ(i: nat, n: nat): nat { if i + 1 == n then 0 else i + 1 }

  ghost predicate Distinct(r: seq<Entry>) { forall i, j :: 0 <= i < j < |r| ==> r[i] != r[j] }

  /** Entry `i` and its successor point to each other. */
  ghost predicate Linked(r: seq<Entry>, i: nat)
    requires i < |r|
    reads r
  {
    var s := r[Succ(i, |r|)];
    r[i].next == s && s.prev == r[i]
  }

  /** The entries of `r` are linked in a circle, in that order. */
  ghost predicate Ring(r: seq<Entry>)
    reads r
  {
    r != [] && Distinct(r) && forall i :: 0 <= i < |r| ==> Linked(r, i)
  }

  /** `MFList_Init`. */
  method Init(head: Entry)
    modifies head
    ensures Ring([head])
  {
    head.next := head;
    head.prev := head;
    assert Linked([head], 0);
  }

  /** `MFList_Empty`. */
  method Empty(head: Entry, ghost entries: seq<Entry>) returns (r: bool)
    requires Ring([head] + entries)
    ensures r <==> entries == []
  {
    assert Linked([head] + entries, 0);
    r := head.next == head && head.prev == head.next;
  }

  /** `MFList_InsertTail`. */
  method InsertTail(head: Entry, entry: Entry, ghost entries: seq<Entry>)
    requires Ring([head] + entries) && entry !in [head] + entries
    modifies head, entry, entries
    ensures Ring([head] + (entries + [entry]))
  {
    ghost var was := [head] + entries;
    ghost var n := |was|;
    assert Linked(was, n - 1);
    entry.next := head;
    entry.prev := head.prev;
    head.prev.next := entry;
    head.prev := entry;
    ghost var ring := [head] + (entries + [entry]);
    assert ring == was + [entry];
    forall i | 0 <= i < |ring| ensures Linked(ring, i) {
      if i < n - 1 {
        assert old(Linked(was, i));
      }
    }
  }

  /** `MFList_InsertHead`. */
  method InsertHead(head: Entry, entry: Entry, ghost entries: seq<Entry>)
    requires Ring([head] + entries) && entry !in [head] + entries
    modifies head, entry, entries
    ensures Ring([head] + ([entry] + entries))
  {
    ghost var was := [head] + entries;
    ghost var n := |was|;
    assert Linked(was, 0);
    entry.prev := head;
    entry.next := head.next;
    head.next.prev := entry;
    head.next := entry;
    ghost var ring := [head] + ([entry] + entries);
    assert forall i :: 1 < i <= n ==> ring[i] == was[i - 1];
    forall i | 0 <= i < |ring| ensures Linked(ring, i) {
      if i >= 2 {
        assert old(Linked(was, i - 1));
      }
    }
  }

  /** `MFList_Remove` of the `k`-th entry: the rest stay in order, the entry is a ring of its own. */
  method Remove(entry: Entry, ghost head: Entry, ghost entries: seq<Entry>, ghost k: nat)
    requires Ring([head] + entries) && k < |entries| && entries[k] == entry
    modifies head, entries
    ensures Ring([head] + (entries[..k] + entries[k + 1..])) && Ring([entry])
  {
    ghost var was := [head] + entries;
    assert Linked(was, k) && Linked(was, k + 1);
    entry.next.prev := entry.prev;
    entry.prev.next := entry.next;
    Init(entry);
    forall i | 0 <= i < |was| && i != k && i != k + 1 ensures Linked(was, i) {
      assert old(Linked(was, i));
    }
    Relinked(head, entries, k);
  }

  /** The neighbours of position `k + 1` linked to each other, all other links as in a ring. */
  lemma Relinked(head: Entry, entries: seq<Entry>, k: nat)
    requires k < |entries| && Distinct([head] + entries)
    requires var r, n := [head] + entries, |entries| + 1;
        && r[k].next == r[Succ(k + 1, n)] && r[Succ(k + 1, n)].prev == r[k]
        && (forall i :: 0 <= i < n && i != k && i != k + 1 ==> Linked(r, i))
    ensures Ring([head] + (entries[..k] + entries[k + 1..]))
  {
    var r, n := [head] + entries, |entries| + 1;
    var ring := [head] + (entries[..k] + entries[k + 1..]);
    assert forall i :: 0 <= i <= k ==> ring[i] == r[i];
    assert forall i :: k < i < n - 1 ==> ring[i] == r[i + 1];
    forall i | 0 <= i < n - 1 ensures Linked(ring, i) {
      Skipped(i, k, n);
      if i < k {
        assert Linked(r, i);
      } else if i > k {
        assert Linked(r, i + 1);
      }
    }
  }

  /** Positions in the ring with position `k + 1` taken out. */
  lemma Skipped(i: nat, k: nat, n: nat)
    requires i < n - 1 && k + 1 < n
    ensures var j, s := if i <= k then i else i + 1, Succ(i, n - 1);
            (if s <= k then s else s + 1) == if Succ(j, n) == k + 1 then Succ(k + 1, n) else Succ(j, n)
  {
  }
}
