/** Singly linked lists that share their cells: a `next` pointer per cell, 0 being the
    null pointer. */
module Slist {
  import opened Sequences

  type Ref = nat

  function After(s: seq<Ref>, i: nat): (r: Ref) {
    if i + 1 < |s| then s[i + 1] else 0
  }

  /** From head, following next, the cells of s and then null. */
  ghost predicate IsList(next: map<Ref, Ref>, head: Ref, s: seq<Ref>) {
    && head == (if s == [] then 0 else s[0])
    && forall i | 0 <= i < |s| :: s[i] != 0 && s[i] in next && next[s[i]] == After(s, i)
  }

  lemma PopList(next: map<Ref, Ref>, head: Ref, s: seq<Ref>)
    requires IsList(next, head, s) && s != []
    ensures head == s[0] && head in next && IsList(next, next[head], s[1..])
  {
    assert next[s[0]] == After(s, 0);
    assert forall i | 0 <= i < |s| - 1 :: s[1..][i] == s[i + 1] && After(s[1..], i) == After(s, i + 1);
  }

  lemma PushList(next: map<Ref, Ref>, head: Ref, s: seq<Ref>, n: Ref)
    requires IsList(next, head, s) && n != 0 && n !in s
    ensures IsList(next[n := head], n, [n] + s)
  {
  }

  lemma OneCell(next: map<Ref, Ref>, n: Ref)
    requires n != 0 && n in next && next[n] == 0
    ensures IsList(next, n, [n])
  {
  }

  /** A pointer of a cell elsewhere does not matter. */
  lemma OtherCell(next: map<Ref, Ref>, head: Ref, s: seq<Ref>, n: Ref, target: Ref)
    requires IsList(next, head, s) && n !in s
    ensures IsList(next[n := target], head, s)
  {
  }

  /** Hanging a last cell onto the last cell so far. */
  lemma AppendList(next: map<Ref, Ref>, head: Ref, s: seq<Ref>, n: Ref)
    requires IsList(next, head, s) && s != [] && Distinct(s) && n != 0 && n !in s && n in next && next[n] == 0
    ensures IsList(next[s[|s| - 1] := n], head, s + [n])
  {
  }

  // --- two lists that share out the cells -------------------------------------

  /** Each of the cells 1 .. count is on exactly one of the two lists and only once, but
      for a loose one, which is on none. */
  ghost predicate Shared(a: seq<Ref>, b: seq<Ref>, count: nat, loose: Ref) {
    && Distinct(a) && Distinct(b)
    && (forall n | n in a :: n !in b)
    && (forall n :: n in a || n in b || (n == loose && n != 0) <==> 1 <= n <= count)
    && loose !in a && loose !in b
  }

  lemma SharedHead(a: seq<Ref>, b: seq<Ref>, count: nat)
    requires Shared(a, b, count, 0) && a != []
    ensures Shared(a[1..], b, count, a[0])
    ensures 1 <= a[0] <= count && a[0] !in a[1..] && a[0] !in b
  {
    forall n ensures n in a <==> n in a[1..] || n == a[0] {
      assert a == [a[0]] + a[1..];
    }
  }

  lemma SharedSwap(a: seq<Ref>, b: seq<Ref>, count: nat, loose: Ref)
    requires Shared(a, b, count, loose)
    ensures Shared(b, a, count, loose)
  {
  }

  lemma SharedPush(a: seq<Ref>, b: seq<Ref>, count: nat, loose: Ref)
    requires Shared(a, b, count, loose) && loose != 0
    ensures Shared([loose] + a, b, count, 0) && Shared(a + [loose], b, count, 0)
    ensures loose !in a && loose !in b && 1 <= loose <= count && Distinct(a)
    ensures forall n | n in a :: n !in b
  {
  }

  lemma SharedGrow(a: seq<Ref>, b: seq<Ref>, count: nat)
    requires Shared(a, b, count, 0)
    ensures Shared(a, b, count + 1, count + 1)
    ensures count + 1 !in a && count + 1 !in b
  {
  }

  /** Together the lists are as long as there are cells. */
  lemma {:induction false} SharedCount(a: seq<Ref>, b: seq<Ref>, count: nat)
    requires Shared(a, b, count, 0)
    ensures |a| + |b| == count
  {
    var cells := a + b;
    forall i, j | 0 <= i < j < |cells| ensures cells[i] != cells[j] {
      if i < |a| <= j {
        assert cells[i] in a && cells[j] == b[j - |a|] && b[j - |a|] in b;
      }
    }
    CellsCount(cells, count);
  }

  lemma {:induction false} CellsCount(cells: seq<Ref>, count: nat)
    requires Distinct(cells) && forall n :: n in cells <==> 1 <= n <= count
    ensures |cells| == count
    decreases count
  {
    assert count >= 1 ==> count in cells;
    if cells != [] {
      assert cells[0] in cells;
      var i :| 0 <= i < |cells| && cells[i] == count;
      var rest := cells[..i] + cells[i + 1..];
      forall n ensures n in rest <==> n in cells && n != count {
        if n in cells && n != count {
          var k :| 0 <= k < |cells| && cells[k] == n;
          assert n == rest[if k < i then k else k - 1];
        }
      }
      CellsCount(rest, count - 1);
    }
  }
}
