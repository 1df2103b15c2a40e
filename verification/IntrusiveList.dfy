/**
  The circular doubly linked lists of list.h.
 */
module IntrusiveList {
  import opened Sequences


  class ListHead {
    var next: ListHead
    var prev: ListHead
    /** The number of the entry that the node is embedded in. */
    const owner: nat

    /** INIT_LIST_HEAD: a list of its own. */
    constructor (owner: nat)
      ensures next == this && prev == this && this.owner == owner
    {
      next, prev := this, this;
      this.owner := owner;
    }
  }

  function Succ(i: nat, n: nat): nat { if i + 1 == n then 0 else i + 1 }

  /** The nodes r form a ring, in this order. */
  ghost predicate Ring(r: seq<ListHead>)
    reads r
  {
    && |r| > 0 && Distinct(r)
    && forall i :: 0 <= i < |r| ==> r[i].next == r[Succ(i, |r|)] && r[Succ(i, |r|)].prev == r[i]
  }

  /** __list_add between neighbours, used for the place before the head. */
  method ListAddTail(entry: ListHead, head: ListHead, ghost r: seq<ListHead>)
    requires Ring(r) && r[0] == head && entry !in r
    modifies entry, r
    ensures Ring(r + [entry])
  {
    ghost var n := |r|;
    assert r[Succ(n - 1, n)] == head && head.prev == r[n - 1];
    var prev, next := head.prev, head;
    next.prev := entry;
    entry.next := next;
    entry.prev := prev;
    prev.next := entry;
    ghost var q := r + [entry];
    forall i | 0 <= i < |q| ensures q[i].next == q[Succ(i, |q|)] && q[Succ(i, |q|)].prev == q[i] {
      if i < n - 1 { assert r[i].next == r[Succ(i, n)] && r[Succ(i, n)].prev == r[i]; }
    }
  }

  /** list_del: the neighbours are linked to each other; the entry keeps its pointers. */
  method ListDel(entry: ListHead, ghost r: seq<ListHead>, ghost k: nat)
    requires Ring(r) && k < |r| && r[k] == entry && (k > 0 || |r| == 1)
    modifies r
    ensures if |r| == 1 then Ring(r) else Ring(r[..k] + r[k + 1..])
  {
    ghost var n := |r|;
    assert r[Succ(k, n)].prev == r[k] && r[k].next == r[Succ(k, n)];
    assert k > 0 ==> r[Succ(k - 1, n)] == r[k] && r[k - 1].next == r[k] && r[k].prev == r[k - 1];
    var prev, next := entry.prev, entry.next;
    next.prev := prev;
    prev.next := next;
    if n > 1 {
      ghost var q := r[..k] + r[k + 1..];
      forall i | 0 <= i < |q| ensures q[i].next == q[Succ(i, |q|)] && q[Succ(i, |q|)].prev == q[i] {
        var a := if i < k then i else i + 1;
        assert q[i] == r[a];
        assert old(r[a].next) == r[Succ(a, n)] && old(r[Succ(a, n)].prev) == r[a];
        if i == k - 1 {
          assert q[i] == prev && q[Succ(i, |q|)] == next;
        } else {
          assert q[Succ(i, |q|)] == r[Succ(a, n)];
          assert r[a] != prev && r[Succ(a, n)] != next;
        }
      }
    }
  }
}
