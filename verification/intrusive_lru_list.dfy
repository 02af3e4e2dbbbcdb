/**
 * The intrusive doubly-linked list: nodes are handed out by the list, carry their value and the
 * list that made them, and are linked, unlinked and moved to the front in constant time. The
 * front holds the most recently used node, the back the least recently used one.
 *
 * Nodes live in an arena owned by the list: a node handle names its list and its slot, and the
 * links of all nodes are the list's `next` and `prev` sequences, indexed by slot.
 */
module LruLists {
  import opened Wrappers
  import opened Seqs
  import opened Links

  /** A handle on a node: the list that made it (`getList`) and the node's slot in that list's arena. */
  datatype Node<T> = Node(list: IntrusiveLruList<T>, slot: nat)
  {
    /** `getValue`: the value the node was made with. */
    function GetValue(): T
      reads list
      requires slot in list.payload
    {
      list.payload[slot]
    }

    /** `isLinked`: both links of the node are set. */
    predicate IsLinked()
      reads list
      requires slot < |list.next| && slot < |list.prev|
    {
      list.next[slot] != NIL && list.prev[slot] != NIL
    }
  }

  /** The values of the nodes in `order`, in that order. */
  function Project<T>(payload: map<nat, T>, order: seq<nat>): (r: seq<T>)
    requires forall i :: 0 <= i < |order| ==> order[i] in payload
  {
    seq(|order|, i requires 0 <= i < |order| => payload[order[i]])
  }

  /** Moving a node to the front moves its value to the front of the values. */
  lemma ProjectMoveToFront<T>(payload: map<nat, T>, order: seq<nat>, i: nat)
    requires forall j :: 0 <= j < |order| ==> order[j] in payload
    requires i < |order|
    ensures forall j :: 0 <= j < |order| ==> MoveToFront(order, i)[j] in payload
    ensures Project(payload, MoveToFront(order, i)) == MoveToFront(Project(payload, order), i)
  {
    forall j | 0 <= j < |order| ensures MoveToFront(order, i)[j] in payload {
      MoveToFrontAt(order, i, j);
    }
    var l, r := Project(payload, MoveToFront(order, i)), MoveToFront(Project(payload, order), i);
    forall j | 0 <= j < |order| ensures l[j] == r[j] {
      MoveToFrontAt(order, i, j);
      MoveToFrontAt(Project(payload, order), i, j);
    }
  }

  /** Linking a node at the front puts its value at the front of the values. */
  lemma ProjectPrepend<T>(payload: map<nat, T>, order: seq<nat>, x: nat)
    requires forall j :: 0 <= j < |order| ==> order[j] in payload
    requires x in payload
    ensures Project(payload, [x] + order) == [payload[x]] + Project(payload, order)
  {
  }

  /** Unlinking the back node drops the back value. */
  lemma ProjectDropLast<T>(payload: map<nat, T>, order: seq<nat>)
    requires forall j :: 0 <= j < |order| ==> order[j] in payload
    requires order != []
    ensures Project(payload, order[..|order| - 1]) == Project(payload, order)[..|order| - 1]
  {
  }

  /** Giving a value to a slot that is not linked leaves the values of the list alone. */
  lemma ProjectExtend<T>(payload: map<nat, T>, order: seq<nat>, x: nat, v: T)
    requires forall j :: 0 <= j < |order| ==> order[j] in payload
    requires x !in order
    ensures Project(payload[x := v], order) == Project(payload, order)
  {
  }

  class IntrusiveLruList<T> {
    /** `next` link of the node in each slot, NIL for null. */
    var next: seq<int>
    /** `prev` link of the node in each slot, NIL for null. */
    var prev: seq<int>
    /** The value of every node made by `NewNode`, by slot; the sentinels carry none. */
    var payload: map<nat, T>
    var size: int
    /** The slots of the linked nodes from `head` to `tail`: most recently used first. */
    ghost var Order: seq<nat>

    ghost predicate Valid()
      reads this
    {
      WellFormed(next, prev, Order) &&
      size == |Order| &&
      (forall s :: s in payload <==> 2 <= s < |next|)
    }

    /** The values of the linked nodes, front to back. */
    ghost function Elements(): seq<T>
      reads this
      requires Valid()
    {
      Project(payload, Order)
    }

    /**
     * A handle naming this list names one of its slots: in the Java list the only nodes whose
     * `getList()` is this list are its two sentinels and the nodes its `newNode` made.
     */
    ghost predicate Issued(node: Node<T>)
      reads this
    {
      node.list == this ==> node.slot < |next|
    }

    constructor ()
      ensures Valid()
      ensures Order == [] && size == 0 && payload == map[]
      ensures |next| == 2 && next[HEAD] == TAIL && prev[TAIL] == HEAD
    {
      next := [TAIL, NIL];
      prev := [NIL, HEAD];
      payload := map[];
      size := 0;
      Order := [];
      EmptyWellFormed();
    }

    /** `getSize`: the number of linked nodes. */
    function GetSize(): (n: int)
      reads this
      requires Valid()
      ensures n == |Order| && n == |Elements()|
    {
      size
    }

    /** `checkNode`: the node must have been made by this list. */
    function CheckNode(node: Node<T>): Outcome<Error> {
      if node.list == this then Pass else Fail(IllegalArgument)
    }

    /** `checkNewNode`: the node must not be linked already. */
    function CheckNewNode(node: Node<T>): Outcome<Error>
      reads this
      requires node.list == this && node.slot < |next| == |prev|
    {
      if node.IsLinked() then Fail(IllegalArgument) else Pass
    }

    /** `checkNotEmpty`: the list must hold a node. */
    function CheckNotEmpty(): Outcome<Error>
      reads this
    {
      if size == 0 then Fail(NoSuchElement) else Pass
    }

    /**
     * `newNode`: a node holding `value`, made by this list and not linked into it.
     * The arena grows by one slot; the list itself is unchanged.
     */
    method NewNode(value: T) returns (node: Node<T>)
      requires Valid()
      modifies this
      ensures Valid()
      ensures Order == old(Order) && size == old(size)
      ensures node.list == this && node.slot == old(|next|) && |next| == old(|next|) + 1
      ensures payload == old(payload)[node.slot := value]
      ensures node.slot !in Order && !node.IsLinked()
    {
      GrowWellFormed(next, prev, Order);
      node := Node(this, |next|);
      next := next + [NIL];
      prev := prev + [NIL];
      payload := payload[node.slot := value];
    }

    /**
     * `unlink`: detaches a node of this list and returns it. A node of another list is
     * refused with IllegalArgument, and an empty list with NoSuchElement, in that order.
     * On success the node is gone from the list, with both links null, and every other
     * node keeps its place relative to the rest.
     */
    method Unlink(node: Node<T>) returns (r: Result<Node<T>, Error>)
      requires Valid() && Issued(node)
      // unlinking a node that is not linked, from a list that is not empty, dereferences null in the Java list
      requires node.list == this && size != 0 ==> node.slot in Order
      modifies this
      ensures Valid() && payload == old(payload) && |next| == old(|next|)
      ensures r.Success? <==> node.list == this && old(size) != 0
      ensures node.list != this ==> r == Failure(IllegalArgument)
      ensures node.list == this && old(size) == 0 ==> r == Failure(NoSuchElement)
      ensures r.Failure? ==> unchanged(this)
      ensures r.Success? ==>
        r.value == node && size == old(size) - 1 &&
        Order == RemoveAt(old(Order), IndexOf(old(Order), node.slot)) &&
        next[node.slot] == NIL && prev[node.slot] == NIL
    {
      var check := CheckNode(node);
      if check.Fail? {
        return Failure(check.error);
      }
      check := CheckNotEmpty();
      if check.Fail? {
        return Failure(check.error);
      }
      var x := node.slot;
      ghost var i := IndexOf(Order, x);
      UnlinkWellFormed(next, prev, Order, i);
      size := size - 1;
      var p, n := prev[x], next[x];
      next := next[p := n];
      prev := prev[n := p];
      next := next[x := NIL];
      prev := prev[x := NIL];
      Order := RemoveAt(Order, i);
      r := Success(node);
    }

    /**
     * `linkNext`: links `newNode` right after `node`. Either node made by another list, or a
     * `newNode` that is already linked, is refused with IllegalArgument and the list is left
     * as it was. On success `newNode` sits immediately after `node` (at the front when `node`
     * is the head) and every other node keeps its place relative to the rest.
     */
    method LinkNext(node: Node<T>, newNode: Node<T>) returns (r: Result<Node<T>, Error>)
      requires Valid() && Issued(node) && Issued(newNode)
      // the sentinels are never handed out to callers; the Java list would accept one and corrupt its chain
      requires newNode.list == this ==> newNode.slot != HEAD && newNode.slot != TAIL
      // linking after the tail or after an unlinked node dereferences null in the Java list
      requires node.list == this && newNode.list == this && newNode.slot !in Order ==>
        node.slot == HEAD || node.slot in Order
      modifies this
      ensures Valid() && payload == old(payload) && |next| == old(|next|)
      ensures r.Success? <==> node.list == this && newNode.list == this && newNode.slot !in old(Order)
      ensures r.Failure? ==> r.error == IllegalArgument && unchanged(this)
      ensures r.Success? ==>
        r.value == newNode && size == old(size) + 1 &&
        Order == InsertAt(old(Order), if node.slot == HEAD then 0 else IndexOf(old(Order), node.slot) + 1, newNode.slot)
    {
      var check := CheckNode(node);
      if check.Fail? {
        return Failure(check.error);
      }
      check := CheckNode(newNode);
      if check.Fail? {
        return Failure(check.error);
      }
      LinkedIff(next, prev, Order, newNode.slot);
      check := CheckNewNode(newNode);
      if check.Fail? {
        return Failure(check.error);
      }
      var a, x := node.slot, newNode.slot;
      ghost var j := if a == HEAD then 0 else IndexOf(Order, a) + 1;
      assert Chain(Order)[j] == a;
      LinkWellFormed(next, prev, Order, j, x);
      size := size + 1;
      var b := next[a];
      prev := prev[b := x];
      next := next[x := b];
      next := next[a := x];
      prev := prev[x := a];
      Order := InsertAt(Order, j, x);
      r := Success(newNode);
    }

    /** `addFront`: links a node of this list at the front; refused as `LinkNext` refuses it. */
    method AddFront(node: Node<T>) returns (r: Result<Node<T>, Error>)
      requires Valid() && Issued(node)
      requires node.list == this ==> node.slot != HEAD && node.slot != TAIL
      modifies this
      ensures Valid() && payload == old(payload) && |next| == old(|next|)
      ensures r.Success? <==> node.list == this && node.slot !in old(Order)
      ensures r.Failure? ==> r.error == IllegalArgument && unchanged(this)
      ensures r.Success? ==> r.value == node && size == old(size) + 1 && Order == [node.slot] + old(Order)
    {
      r := LinkNext(Node(this, HEAD), node);
    }

    /**
     * `removeBack`: unlinks and returns the back node, the least recently added or touched one.
     * On an empty list it fails with NoSuchElement.
     */
    method RemoveBack() returns (r: Result<Node<T>, Error>)
      requires Valid()
      modifies this
      ensures Valid() && payload == old(payload) && |next| == old(|next|)
      ensures old(size) == 0 ==> r == Failure(NoSuchElement) && unchanged(this)
      ensures old(size) != 0 ==>
        r.Success? && r.value == Node(this, old(Order)[|old(Order)| - 1]) &&
        size == old(size) - 1 && Order == old(Order)[..|old(Order)| - 1] &&
        next[r.value.slot] == NIL && prev[r.value.slot] == NIL
    {
      Ends(next, prev, Order);
      assert 0 <= prev[TAIL] < |next| by {
        if Order != [] {
          assert Order[|Order| - 1] in Order;
        }
      }
      ghost var last := |Order| - 1;
      if Order != [] {
        IndexOfDistinct(Order, last);
      }
      r := Unlink(Node(this, prev[TAIL]));
    }

    /**
     * `touch`: moves a linked node of this list to the front and returns it, leaving the size
     * and the order of the other nodes unchanged. Refused as `Unlink` refuses it.
     */
    method Touch(node: Node<T>) returns (r: Result<Node<T>, Error>)
      requires Valid() && Issued(node)
      requires node.list == this && size != 0 ==> node.slot in Order
      modifies this
      ensures Valid() && payload == old(payload) && |next| == old(|next|)
      ensures r.Success? <==> node.list == this && old(size) != 0
      ensures node.list != this ==> r == Failure(IllegalArgument)
      ensures node.list == this && old(size) == 0 ==> r == Failure(NoSuchElement)
      ensures r.Failure? ==> unchanged(this)
      ensures r.Success? ==>
        r.value == node && size == old(size) &&
        Order == MoveToFront(old(Order), IndexOf(old(Order), node.slot))
    {
      var unlinked := Unlink(node);
      if unlinked.Failure? {
        return unlinked;
      }
      LinkedIff(next, prev, Order, node.slot);
      r := AddFront(unlinked.value);
    }
  }
}
