/** Circular doubly linked lists in shared memory: cells are offsets, the link words
    are two maps, and each list hangs on a sentinel head. Several lists share the
    cells; every cell is on exactly one of them unless it is loose. */
module Dlist {
  import opened Sequences

  type Node = nat

  datatype Links = Links(next: map<Node, Node>, prev: map<Node, Node>)

  // --- one list ---------------------------------------------------------------

  /** Position i of the walk from the head around the list and back to it. */
  function At(head: Node, s: seq<Node>, i: nat): (r: Node)
    requires i <= |s| + 1
  {
    if i == 0 || i == |s| + 1 then head else s[i - 1]
  }

  /** Positions i and i + 1 point at each other. */
  predicate Joined(l: Links, head: Node, s: seq<Node>, i: nat)
    requires i <= |s|
  {
    var a, b := At(head, s, i), At(head, s, i + 1);
    a in l.next && l.next[a] == b && b in l.prev && l.prev[b] == a
  }

  predicate Apart(head: Node, s: seq<Node>) {
    Distinct(s) && forall i | 0 <= i < |s| :: s[i] != head
  }

  /** The cells of s, in order, form a ring with the head. */
  ghost predicate Ring(l: Links, head: Node, s: seq<Node>) {
    Apart(head, s) && forall i | 0 <= i <= |s| :: Joined(l, head, s, i)
  }

  function Inserted<T>(s: seq<T>, p: nat, x: T): (r: seq<T>)
    requires p <= |s|
  {
    s[..p] + [x] + s[p..]
  }

  function Deleted<T>(s: seq<T>, p: nat): (r: seq<T>)
    requires p < |s|
  {
    s[..p] + s[p + 1..]
  }

  /** dlist_add_after. */
  function AddAfter(l: Links, n: Node, after: Node): (r: Links)
    requires after in l.next
  {
    var nx := l.next[after];
    Links(l.next[n := nx][after := n], l.prev[n := after][nx := n])
  }

  /** dlist_remove_entry: the neighbours are joined and the entry points to itself. */
  function RemoveEntry(l: Links, n: Node): (r: Links)
    requires n in l.next && n in l.prev
  {
    var nx, pv := l.next[n], l.prev[n];
    Links(l.next[pv := nx][n := n], l.prev[nx := pv][n := n])
  }

  lemma AtDistinct(head: Node, s: seq<Node>, i: nat, j: nat)
    requires Apart(head, s) && i != j
    ensures i <= |s| && j <= |s| ==> At(head, s, i) != At(head, s, j)
    ensures 1 <= i <= |s| + 1 && 1 <= j <= |s| + 1 ==> At(head, s, i) != At(head, s, j)
  {
  }

  lemma AtInserted(head: Node, s: seq<Node>, p: nat, n: Node, i: nat)
    requires p <= |s| && i <= |s| + 2
    ensures At(head, Inserted(s, p, n), i) ==
            if i <= p then At(head, s, i) else if i == p + 1 then n else At(head, s, i - 1)
  {
  }

  lemma AtDeleted(head: Node, s: seq<Node>, p: nat, i: nat)
    requires p < |s| && i <= |s|
    ensures At(head, Deleted(s, p), i) == if i <= p then At(head, s, i) else At(head, s, i + 1)
  {
  }

  lemma AtOther(head: Node, s: seq<Node>, n: Node, i: nat)
    requires n != head && n !in s && i <= |s| + 1
    ensures At(head, s, i) != n
  {
  }

  lemma InsertedApart(head: Node, s: seq<Node>, p: nat, n: Node)
    requires Apart(head, s) && p <= |s| && n != head && n !in s
    ensures Apart(head, Inserted(s, p, n))
  {
  }

  lemma DeletedApart(head: Node, s: seq<Node>, p: nat)
    requires Apart(head, s) && p < |s|
    ensures Apart(head, Deleted(s, p)) && s[p] !in Deleted(s, p)
  {
  }

  lemma RingAdd(l: Links, head: Node, s: seq<Node>, p: nat, n: Node)
    requires Ring(l, head, s) && p <= |s| && n != head && n !in s
    ensures At(head, s, p) in l.next
    ensures Ring(AddAfter(l, n, At(head, s, p)), head, Inserted(s, p, n))
  {
    assert Joined(l, head, s, p);
    var t, m := Inserted(s, p, n), AddAfter(l, n, At(head, s, p));
    InsertedApart(head, s, p, n);
    hide Distinct, At, Inserted;
    forall i | 0 <= i <= |t| ensures Joined(m, head, t, i) {
      AtInserted(head, s, p, n, i);
      AtInserted(head, s, p, n, i + 1);
      var j := if i <= p then i else i - 1;
      assert Joined(l, head, s, j);
      AtOther(head, s, n, j);
      AtOther(head, s, n, j + 1);
      if j != p {
        AtDistinct(head, s, j, p);
        AtDistinct(head, s, j + 1, p + 1);
      }
    }
  }

  lemma RingRemove(l: Links, head: Node, s: seq<Node>, p: nat)
    requires Ring(l, head, s) && p < |s|
    ensures s[p] in l.next && s[p] in l.prev
    ensures l.next[s[p]] == At(head, s, p + 2)
    ensures Ring(RemoveEntry(l, s[p]), head, Deleted(s, p))
  {
    assert Joined(l, head, s, p) && Joined(l, head, s, p + 1);
    var n, t, m := s[p], Deleted(s, p), RemoveEntry(l, s[p]);
    assert At(head, s, p + 1) == n;
    DeletedApart(head, s, p);
    hide Distinct, At, Deleted;
    forall i | 0 <= i <= |t| ensures Joined(m, head, t, i) {
      AtDeleted(head, s, p, i);
      AtDeleted(head, s, p, i + 1);
      if i != p {
        var j := if i < p then i else i + 1;
        assert Joined(l, head, s, j);
        AtDistinct(head, s, j, p);
        AtDistinct(head, s, j, p + 1);
        AtDistinct(head, s, j + 1, p + 1);
        AtDistinct(head, s, j + 1, p + 2);
      } else {
        AtDistinct(head, s, p, p + 1);
        AtDistinct(head, s, p + 1, p + 2);
      }
    }
  }

  /** Links that agree on the cells of a ring agree that it is one. */
  lemma RingFrame(l: Links, m: Links, head: Node, s: seq<Node>)
    requires Ring(l, head, s)
    requires forall n | n == head || n in s ::
               n in m.next && n in m.prev && n in l.next && n in l.prev && m.next[n] == l.next[n] && m.prev[n] == l.prev[n]
    ensures Ring(m, head, s)
  {
    forall i | 0 <= i <= |s| ensures Joined(m, head, s, i) {
      assert Joined(l, head, s, i);
    }
  }

  // --- all lists --------------------------------------------------------------

  /** The heads are cells 0 .. |lists| - 1; `owner` says on which list each other
      cell is. A cell without an owner is loose. */
  ghost predicate Linked(l: Links, lists: seq<seq<Node>>, owner: map<Node, nat>) {
    && (forall k | 0 <= k < |lists| :: Ring(l, k, lists[k]))
    && (forall k, i | 0 <= k < |lists| && 0 <= i < |lists[k]| :: lists[k][i] in owner && owner[lists[k][i]] == k)
    && (forall n | n in owner :: n >= |lists| && owner[n] < |lists| && n in lists[owner[n]])
  }

  lemma OtherList(l: Links, lists: seq<seq<Node>>, owner: map<Node, nat>, j: nat, k: nat, c: Node, i: nat)
    requires Linked(l, lists, owner) && j < |lists| && k < |lists| && j != k
    requires (c == j || c in lists[j]) && i <= |lists[k]| + 1
    ensures At(k, lists[k], i) != c
  {
    hide Ring;
    if 0 < i <= |lists[k]| {
      assert owner[lists[k][i - 1]] == k;
    }
  }

  lemma RingCells(l: Links, head: Node, s: seq<Node>, c: Node)
    requires Ring(l, head, s) && (c == head || c in s)
    ensures c in l.next && c in l.prev
  {
    if c == head {
      assert Joined(l, head, s, 0) && Joined(l, head, s, |s|);
    } else {
      var i :| 0 <= i < |s| && s[i] == c;
      assert Joined(l, head, s, i) && Joined(l, head, s, i + 1);
    }
  }

  /** Linking a loose cell in at position p of list k. */
  lemma LinkedInsert(l: Links, lists: seq<seq<Node>>, owner: map<Node, nat>, k: nat, p: nat, n: Node)
    requires Linked(l, lists, owner) && k < |lists| && p <= |lists[k]|
    requires n !in owner && n >= |lists|
    ensures At(k, lists[k], p) in l.next
    ensures Linked(AddAfter(l, n, At(k, lists[k], p)), lists[k := Inserted(lists[k], p, n)], owner[n := k])
  {
    var s, after := lists[k], At(k, lists[k], p);
    RingCells(l, k, s, after);
    assert Joined(l, k, s, p);
    RingAdd(l, k, s, p, n);
    var m, lists', owner' := AddAfter(l, n, after), lists[k := Inserted(s, p, n)], owner[n := k];
    hide Ring, Inserted;
    forall j | 0 <= j < |lists'| ensures Ring(m, j, lists'[j]) {
      if j != k {
        forall c | c == j || c in lists[j]
          ensures c in m.next && c in m.prev && c in l.next && c in l.prev && m.next[c] == l.next[c] && m.prev[c] == l.prev[c]
        {
          RingCells(l, j, lists[j], c);
          OtherList(l, lists, owner, j, k, c, p);
          OtherList(l, lists, owner, j, k, c, p + 1);
        }
        RingFrame(l, m, j, lists[j]);
      }
    }
    InsertedOwner(lists, owner, k, p, n);
  }

  lemma InsertedOwner(lists: seq<seq<Node>>, owner: map<Node, nat>, k: nat, p: nat, n: Node)
    requires k < |lists| && p <= |lists[k]| && n >= |lists| && n !in owner
    requires forall k, i | 0 <= k < |lists| && 0 <= i < |lists[k]| :: lists[k][i] in owner && owner[lists[k][i]] == k
    requires forall n | n in owner :: n >= |lists| && owner[n] < |lists| && n in lists[owner[n]]
    ensures var lists', owner' := lists[k := Inserted(lists[k], p, n)], owner[n := k];
            && (forall k, i | 0 <= k < |lists'| && 0 <= i < |lists'[k]| :: lists'[k][i] in owner' && owner'[lists'[k][i]] == k)
            && (forall n | n in owner' :: n >= |lists'| && owner'[n] < |lists'| && n in lists'[owner'[n]])
  {
    var s := lists[k];
    var t := Inserted(s, p, n);
    assert forall c :: c in t <==> c in s || c == n by {
      assert t[p] == n;
      assert s == s[..p] + s[p..];
    }
    assert forall i | 0 <= i < |t| :: t[i] in t;
    assert forall c | c in s :: c in owner && owner[c] == k;
  }

  /** Taking the cell at position p of list k out makes it loose. */
  lemma LinkedRemove(l: Links, lists: seq<seq<Node>>, owner: map<Node, nat>, k: nat, p: nat)
    requires Linked(l, lists, owner) && k < |lists| && p < |lists[k]|
    ensures lists[k][p] in l.next && lists[k][p] in l.prev && l.next[lists[k][p]] == At(k, lists[k], p + 2)
    ensures Linked(RemoveEntry(l, lists[k][p]), lists[k := Deleted(lists[k], p)], owner - {lists[k][p]})
  {
    var s, n := lists[k], lists[k][p];
    RingRemove(l, k, s, p);
    assert Joined(l, k, s, p) && Joined(l, k, s, p + 1);
    DeletedApart(k, s, p);
    var m, lists' := RemoveEntry(l, n), lists[k := Deleted(s, p)];
    hide Ring, Deleted;
    forall j | 0 <= j < |lists'| ensures Ring(m, j, lists'[j]) {
      if j != k {
        forall c | c == j || c in lists[j]
          ensures c in m.next && c in m.prev && c in l.next && c in l.prev && m.next[c] == l.next[c] && m.prev[c] == l.prev[c]
        {
          RingCells(l, j, lists[j], c);
          OtherList(l, lists, owner, j, k, c, p);
          OtherList(l, lists, owner, j, k, c, p + 1);
          OtherList(l, lists, owner, j, k, c, p + 2);
        }
        RingFrame(l, m, j, lists[j]);
      }
    }
    DeletedOwner(lists, owner, k, p);
  }

  lemma DeletedOwner(lists: seq<seq<Node>>, owner: map<Node, nat>, k: nat, p: nat)
    requires k < |lists| && p < |lists[k]| && lists[k][p] !in Deleted(lists[k], p)
    requires forall k, i | 0 <= k < |lists| && 0 <= i < |lists[k]| :: lists[k][i] in owner && owner[lists[k][i]] == k
    requires forall n | n in owner :: n >= |lists| && owner[n] < |lists| && n in lists[owner[n]]
    ensures var lists', owner' := lists[k := Deleted(lists[k], p)], owner - {lists[k][p]};
            && (forall k, i | 0 <= k < |lists'| && 0 <= i < |lists'[k]| :: lists'[k][i] in owner' && owner'[lists'[k][i]] == k)
            && (forall n | n in owner' :: n >= |lists'| && owner'[n] < |lists'| && n in lists'[owner'[n]])
  {
    var s := lists[k];
    var n, t := s[p], Deleted(s, p);
    assert forall c :: c in s <==> c in t || c == n by {
      assert s == s[..p] + [n] + s[p + 1..];
    }
    assert forall i | 0 <= i < |t| :: t[i] in t;
    assert forall c | c in s :: c in owner && owner[c] == k;
    forall j, i | 0 <= j < |lists| && j != k && 0 <= i < |lists[j]| ensures lists[j][i] != n {
      assert owner[lists[j][i]] == j && owner[n] == k;
    }
  }
}
