/**
 * The link structure of the intrusive list, stored in an arena: the node in slot `s` has its
 * `next` and `prev` links in `next[s]` and `prev[s]`. Slot HEAD and slot TAIL hold the two
 * sentinel nodes; every other slot holds a node made by the list's node factory.
 */
module Links {
  import opened Seqs

  /** The null link. */
  const NIL: int := -1
  /** The slot of the `head` sentinel. */
  const HEAD: nat := 0
  /** The slot of the `tail` sentinel. */
  const TAIL: nat := 1

  /** The slots met walking from `head` to `tail` when `order` lists the linked nodes, front first. */
  function Chain(order: seq<nat>): seq<nat> {
    [HEAD] + order + [TAIL]
  }

  /** Consecutive slots of `c` point at each other: `next` forwards and `prev` backwards. */
  ghost predicate LinkedAlong(next: seq<int>, prev: seq<int>, c: seq<nat>) {
    (forall i :: 0 <= i < |c| - 1 ==> c[i] < |next| && next[c[i]] == c[i + 1]) &&
    (forall i :: 0 < i < |c| ==> c[i] < |prev| && prev[c[i]] == c[i - 1])
  }

  /**
   * The structural invariant of the list: walking from `head` along `next` meets exactly the
   * nodes of `order` and then `tail`, `prev` is the inverse walk, the sentinels' outer links
   * are null, and every node that is not in `order` has both links null.
   */
  ghost predicate WellFormed(next: seq<int>, prev: seq<int>, order: seq<nat>) {
    2 <= |next| == |prev| &&
    Distinct(order) &&
    (forall i :: 0 <= i < |order| ==> 2 <= order[i] < |next|) &&
    prev[HEAD] == NIL && next[TAIL] == NIL &&
    LinkedAlong(next, prev, Chain(order)) &&
    (forall s :: 2 <= s < |next| && s !in order ==> next[s] == NIL && prev[s] == NIL)
  }

  /** The sentinels and the linked nodes are pairwise distinct. */
  lemma ChainDistinct(order: seq<nat>)
    requires Distinct(order)
    requires forall i :: 0 <= i < |order| ==> 2 <= order[i]
    ensures Distinct(Chain(order))
    ensures |Chain(order)| == |order| + 2
  {
    var c := Chain(order);
    forall i, j | 0 <= i < j < |c| ensures c[i] != c[j] {
      if 0 < i && j < |c| - 1 {
        assert c[i] == order[i - 1] && c[j] == order[j - 1];
      } else if 0 < i {
        assert c[i] == order[i - 1];
      } else if j < |c| - 1 {
        assert c[j] == order[j - 1];
      }
    }
  }

  /** A fresh list: `head.next == tail`, `tail.prev == head`, no nodes. */
  lemma EmptyWellFormed()
    ensures WellFormed([TAIL, NIL], [NIL, HEAD], [])
  {
    assert Chain([]) == [HEAD, TAIL];
  }

  /** `isLinked` (both links set) holds of a slot exactly when its node is in the list. */
  lemma {:induction false} LinkedIff(next: seq<int>, prev: seq<int>, order: seq<nat>, s: nat)
    requires WellFormed(next, prev, order) && s < |next|
    ensures next[s] != NIL && prev[s] != NIL <==> s in order
  {
    var c := Chain(order);
    if s in order {
      var i := IndexOf(order, s);
      assert c[i + 1] == s;
      assert next[c[i + 1]] == c[i + 2] && prev[c[i + 1]] == c[i];
    } else if s == HEAD {
      assert prev[s] == NIL;
    } else if s == TAIL {
      assert next[s] == NIL;
    }
  }

  /** The list is empty exactly when the sentinels point at each other; `tail.prev` is the back node. */
  lemma {:induction false} Ends(next: seq<int>, prev: seq<int>, order: seq<nat>)
    requires WellFormed(next, prev, order)
    ensures next[HEAD] == TAIL <==> order == []
    ensures prev[TAIL] == HEAD <==> order == []
    ensures order != [] ==> next[HEAD] == order[0] && prev[TAIL] == order[|order| - 1]
  {
    var c := Chain(order);
    assert next[c[0]] == c[1] && prev[c[|c| - 1]] == c[|c| - 2];
    if order != [] {
      assert c[1] == order[0] && c[|c| - 2] == order[|order| - 1];
    }
  }

  /** Adding an unlinked slot to the arena keeps the structure. */
  lemma GrowWellFormed(next: seq<int>, prev: seq<int>, order: seq<nat>)
    requires WellFormed(next, prev, order)
    ensures WellFormed(next + [NIL], prev + [NIL], order)
  {
    var c := Chain(order);
    var next', prev' := next + [NIL], prev + [NIL];
    forall i | 0 <= i < |c| - 1 ensures c[i] < |next'| && next'[c[i]] == c[i + 1] {
      assert next[c[i]] == c[i + 1];
    }
    forall i | 0 < i < |c| ensures c[i] < |prev'| && prev'[c[i]] == c[i - 1] {
      assert prev[c[i]] == c[i - 1];
    }
  }

  /** Bypassing the element at position `m` of a chain: the `next` links. */
  lemma DropNext(next: seq<int>, c: seq<nat>, m: nat)
    requires Distinct(c) && 0 < m < |c| - 1
    requires forall i :: 0 <= i < |c| - 1 ==> c[i] < |next| && next[c[i]] == c[i + 1]
    ensures var c', next' := c[..m] + c[m + 1..], next[c[m - 1] := c[m + 1]][c[m] := NIL];
      forall i :: 0 <= i < |c'| - 1 ==> c'[i] < |next'| && next'[c'[i]] == c'[i + 1]
  {
    var c', next' := c[..m] + c[m + 1..], next[c[m - 1] := c[m + 1]][c[m] := NIL];
    forall i | 0 <= i < |c'| - 1 ensures c'[i] < |next'| && next'[c'[i]] == c'[i + 1] {
      if i < m - 1 {
        assert c'[i] == c[i] && c'[i + 1] == c[i + 1] && next[c[i]] == c[i + 1];
        assert c[i] != c[m - 1] && c[i] != c[m];
      } else if i == m - 1 {
        assert c'[i] == c[m - 1] && c'[i + 1] == c[m + 1];
        assert c[m - 1] != c[m];
      } else {
        assert c'[i] == c[i + 1] && c'[i + 1] == c[i + 2] && next[c[i + 1]] == c[i + 2];
        assert c[i + 1] != c[m - 1] && c[i + 1] != c[m];
      }
    }
  }

  /** Bypassing the element at position `m` of a chain: the `prev` links. */
  lemma DropPrev(prev: seq<int>, c: seq<nat>, m: nat)
    requires Distinct(c) && 0 < m < |c| - 1
    requires forall i :: 0 < i < |c| ==> c[i] < |prev| && prev[c[i]] == c[i - 1]
    ensures var c', prev' := c[..m] + c[m + 1..], prev[c[m + 1] := c[m - 1]][c[m] := NIL];
      forall i :: 0 < i < |c'| ==> c'[i] < |prev'| && prev'[c'[i]] == c'[i - 1]
  {
    var c', prev' := c[..m] + c[m + 1..], prev[c[m + 1] := c[m - 1]][c[m] := NIL];
    forall i | 0 < i < |c'| ensures c'[i] < |prev'| && prev'[c'[i]] == c'[i - 1] {
      if i < m {
        assert c'[i] == c[i] && c'[i - 1] == c[i - 1] && prev[c[i]] == c[i - 1];
        assert c[i] != c[m + 1] && c[i] != c[m];
      } else if i == m {
        assert c'[i] == c[m + 1] && c'[i - 1] == c[m - 1];
        assert c[m + 1] != c[m];
      } else {
        assert c'[i] == c[i + 1] && c'[i - 1] == c[i] && prev[c[i + 1]] == c[i];
        assert c[i + 1] != c[m + 1] && c[i + 1] != c[m];
      }
    }
  }

  /** Splicing `x` into a chain right after position `m`: the `next` links. */
  lemma SpliceNext(next: seq<int>, c: seq<nat>, m: nat, x: nat)
    requires Distinct(c) && m < |c| - 1 && x < |next| && x !in c
    requires forall i :: 0 <= i < |c| - 1 ==> c[i] < |next| && next[c[i]] == c[i + 1]
    ensures var c', next' := c[..m + 1] + [x] + c[m + 1..], next[x := c[m + 1]][c[m] := x];
      forall i :: 0 <= i < |c'| - 1 ==> c'[i] < |next'| && next'[c'[i]] == c'[i + 1]
  {
    var c', next' := c[..m + 1] + [x] + c[m + 1..], next[x := c[m + 1]][c[m] := x];
    forall i | 0 <= i < |c'| - 1 ensures c'[i] < |next'| && next'[c'[i]] == c'[i + 1] {
      if i < m {
        assert c'[i] == c[i] && c'[i + 1] == c[i + 1] && next[c[i]] == c[i + 1];
        assert c[i] != c[m] && c[i] != x;
      } else if i == m {
        assert c'[i] == c[m] && c'[i + 1] == x;
      } else if i == m + 1 {
        assert c'[i] == x && c'[i + 1] == c[m + 1];
        assert x != c[m];
      } else {
        assert c'[i] == c[i - 1] && c'[i + 1] == c[i] && next[c[i - 1]] == c[i];
        assert c[i - 1] != c[m] && c[i - 1] != x;
      }
    }
  }

  /** Splicing `x` into a chain right after position `m`: the `prev` links. */
  lemma SplicePrev(prev: seq<int>, c: seq<nat>, m: nat, x: nat)
    requires Distinct(c) && m < |c| - 1 && x < |prev| && x !in c
    requires forall i :: 0 < i < |c| ==> c[i] < |prev| && prev[c[i]] == c[i - 1]
    ensures var c', prev' := c[..m + 1] + [x] + c[m + 1..], prev[c[m + 1] := x][x := c[m]];
      forall i :: 0 < i < |c'| ==> c'[i] < |prev'| && prev'[c'[i]] == c'[i - 1]
  {
    var c', prev' := c[..m + 1] + [x] + c[m + 1..], prev[c[m + 1] := x][x := c[m]];
    forall i | 0 < i < |c'| ensures c'[i] < |prev'| && prev'[c'[i]] == c'[i - 1] {
      if i <= m {
        assert c'[i] == c[i] && c'[i - 1] == c[i - 1] && prev[c[i]] == c[i - 1];
        assert c[i] != c[m + 1] && c[i] != x;
      } else if i == m + 1 {
        assert c'[i] == x && c'[i - 1] == c[m];
      } else if i == m + 2 {
        assert c'[i] == c[m + 1] && c'[i - 1] == x;
        assert x != c[m + 1];
      } else {
        assert c'[i] == c[i - 1] && c'[i - 1] == c[i - 2] && prev[c[i - 1]] == c[i - 2];
        assert c[i - 1] != c[m + 1] && c[i - 1] != x;
      }
    }
  }

  /** The chain of a list without its node at position `i` skips that node's place. */
  lemma ChainRemoveAt(order: seq<nat>, i: nat)
    requires i < |order|
    ensures Chain(RemoveAt(order, i)) == Chain(order)[..i + 1] + Chain(order)[i + 2..]
  {
  }

  /** The chain of a list with `x` inserted at position `j` has `x` right after the chain's `j`-th slot. */
  lemma ChainInsertAt(order: seq<nat>, j: nat, x: nat)
    requires j <= |order|
    ensures Chain(InsertAt(order, j, x)) == Chain(order)[..j + 1] + [x] + Chain(order)[j + 1..]
  {
  }

  /** After unlinking, the sentinels' outer links are still null and every unlinked slot has null links. */
  lemma UnlinkedSlotsNull(next: seq<int>, prev: seq<int>, order: seq<nat>, i: nat)
    requires WellFormed(next, prev, order) && i < |order|
    requires prev[order[i]] == Chain(order)[i] && next[order[i]] == Chain(order)[i + 2]
    ensures var x, p, n := order[i], Chain(order)[i], Chain(order)[i + 2];
      var next', prev' := next[p := n][x := NIL], prev[n := p][x := NIL];
      prev'[HEAD] == NIL && next'[TAIL] == NIL &&
      forall s :: 2 <= s < |next'| && s !in RemoveAt(order, i) ==> next'[s] == NIL && prev'[s] == NIL
  {
    var c := Chain(order);
    ChainDistinct(order);
    var x, p, n := order[i], c[i], c[i + 2];
    var next', prev' := next[p := n][x := NIL], prev[n := p][x := NIL];
    RemoveAtElements(order, i);
    forall s | 2 <= s < |next'| && s !in RemoveAt(order, i) ensures next'[s] == NIL && prev'[s] == NIL {
      if s != x {
        assert s !in order;
        assert s != p && s != n by {
          assert p == HEAD || p == order[i - 1];
          assert n == TAIL || n == order[i + 1];
        }
      }
    }
    assert c[0] == HEAD && c[i + 1] == x && c[|c| - 1] == TAIL;
  }

  /** After linking, the sentinels' outer links are still null and every unlinked slot has null links. */
  lemma LinkedSlotsNull(next: seq<int>, prev: seq<int>, order: seq<nat>, j: nat, x: nat)
    requires WellFormed(next, prev, order) && j <= |order|
    requires 2 <= x < |next| && x !in order
    ensures var a, b := Chain(order)[j], Chain(order)[j + 1];
      var next', prev' := next[x := b][a := x], prev[b := x][x := a];
      prev'[HEAD] == NIL && next'[TAIL] == NIL &&
      forall s :: 2 <= s < |next'| && s !in InsertAt(order, j, x) ==> next'[s] == NIL && prev'[s] == NIL
  {
    var c := Chain(order);
    ChainDistinct(order);
    var a, b := c[j], c[j + 1];
    assert a == HEAD || a == order[j - 1];
    assert b == TAIL || b == order[j];
    assert c[0] == HEAD && c[|c| - 1] == TAIL;
  }

  /** Inserting a new element keeps a sequence free of repetitions. */
  lemma InsertAtDistinct(order: seq<nat>, j: nat, x: nat)
    requires Distinct(order) && j <= |order| && x !in order
    ensures Distinct(InsertAt(order, j, x))
  {
    var order' := InsertAt(order, j, x);
    forall u, v | 0 <= u < v < |order'| ensures order'[u] != order'[v] {
      if u != j && v != j {
        assert order'[u] == order[if u < j then u else u - 1];
        assert order'[v] == order[if v < j then v else v - 1];
      } else if u == j {
        assert order'[v] == order[v - 1];
      } else {
        assert order'[u] == order[u];
      }
    }
  }

  /**
   * Unlinking the node `x` at position `i` of `order`, as the Java list does it: the predecessor's
   * `next` becomes the successor, the successor's `prev` becomes the predecessor, and then both
   * links of `x` become NIL (`next[p := n][x := NIL]`, `prev[n := p][x := NIL]`).
   * The node's neighbours are the slots before and after it on the chain, and what remains is
   * the list without that node, every other node keeping its place relative to the rest.
   */
  lemma {:induction false} UnlinkWellFormed(next: seq<int>, prev: seq<int>, order: seq<nat>, i: nat)
    requires WellFormed(next, prev, order) && i < |order|
    ensures prev[order[i]] == Chain(order)[i] && next[order[i]] == Chain(order)[i + 2]
    ensures 0 <= prev[order[i]] < |next| && 0 <= next[order[i]] < |next|
    ensures var x, p, n := order[i], prev[order[i]], next[order[i]];
      WellFormed(next[p := n][x := NIL], prev[n := p][x := NIL], RemoveAt(order, i))
  {
    var c := Chain(order);
    ChainDistinct(order);
    assert c[i + 1] == order[i];
    assert next[c[i + 1]] == c[i + 2] && prev[c[i + 1]] == c[i];
    var x, p, n := order[i], c[i], c[i + 2];
    var next', prev', order' := next[p := n][x := NIL], prev[n := p][x := NIL], RemoveAt(order, i);
    assert LinkedAlong(next', prev', Chain(order')) by {
      ChainRemoveAt(order, i);
      DropNext(next, c, i + 1);
      DropPrev(prev, c, i + 1);
    }
    assert Distinct(order') && forall j :: 0 <= j < |order'| ==> 2 <= order'[j] < |next'| by {
      RemoveAtElements(order, i);
      forall j | 0 <= j < |order'| ensures 2 <= order'[j] < |next'| {
        assert order'[j] in order;
      }
    }
    UnlinkedSlotsNull(next, prev, order, i);
  }

  /**
   * Linking the unlinked slot `x` after the anchor at position `j` of the chain, as the Java list
   * does it: the anchor's old successor gets `x` as its `prev`, `x` gets that successor as its
   * `next`, the anchor gets `x` as its `next`, and `x` gets the anchor as its `prev`.
   * The result is the list with `x` inserted right after its anchor and every other node in place.
   */
  lemma {:induction false} LinkWellFormed(next: seq<int>, prev: seq<int>, order: seq<nat>, j: nat, x: nat)
    requires WellFormed(next, prev, order) && j <= |order|
    requires 2 <= x < |next| && x !in order
    ensures next[Chain(order)[j]] == Chain(order)[j + 1]
    ensures 0 <= next[Chain(order)[j]] < |next|
    ensures var a := Chain(order)[j]; var b := next[a];
      WellFormed(next[x := b][a := x], prev[b := x][x := a], InsertAt(order, j, x))
  {
    var c := Chain(order);
    ChainDistinct(order);
    assert next[c[j]] == c[j + 1];
    assert x !in c by {
      forall k | 0 <= k < |c| ensures c[k] != x {
        if 0 < k < |c| - 1 { assert c[k] == order[k - 1]; }
      }
    }
    var a, b := c[j], c[j + 1];
    var next', prev', order' := next[x := b][a := x], prev[b := x][x := a], InsertAt(order, j, x);
    assert LinkedAlong(next', prev', Chain(order')) by {
      ChainInsertAt(order, j, x);
      SpliceNext(next, c, j, x);
      SplicePrev(prev, c, j, x);
    }
    assert Distinct(order') && forall k :: 0 <= k < |order'| ==> 2 <= order'[k] < |next'| by {
      InsertAtDistinct(order, j, x);
      forall k | 0 <= k < |order'| ensures 2 <= order'[k] < |next'| {
        if k != j {
          assert order'[k] == order[if k < j then k else k - 1];
        }
      }
    }
    LinkedSlotsNull(next, prev, order, j, x);
  }
}
