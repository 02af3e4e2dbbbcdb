/**
 * The LRU cache core: one intrusive list of key-value pairs, most recently used first, and a map
 * from each key to the list node that holds it.
 */
module LruCaches {
  import opened Wrappers
  import opened Seqs
  import opened Pairs
  import opened LruLists
  import LruSpec

  /** The capacity of a cache made without one. */
  const DEFAULT_CAPACITY: int := 32

  /**
   * The map and the list agree: every key of the map names a linked node of `list` that holds
   * that key, and every linked node's key is in the map and names that very node.
   */
  ghost predicate Bijection<K, V>(keyToNode: map<K, Node<Pair<K, V>>>, list: IntrusiveLruList<Pair<K, V>>,
                                  payload: map<nat, Pair<K, V>>, order: seq<nat>)
  {
    (forall k :: k in keyToNode ==>
      keyToNode[k].list == list && keyToNode[k].slot in order &&
      keyToNode[k].slot in payload && payload[keyToNode[k].slot].key == k) &&
    (forall s :: s in order ==>
      s in payload && payload[s].key in keyToNode && keyToNode[payload[s].key].slot == s)
  }

  /** Through the bijection the map's keys are the keys of the list's entries, each held once. */
  lemma {:induction false} BijectionKeys<K, V>(keyToNode: map<K, Node<Pair<K, V>>>, list: IntrusiveLruList<Pair<K, V>>,
                                               payload: map<nat, Pair<K, V>>, order: seq<nat>)
    requires Bijection(keyToNode, list, payload, order) && Distinct(order)
    ensures forall j :: 0 <= j < |order| ==> order[j] in payload
    ensures LruSpec.UniqueKeys(Project(payload, order))
    ensures keyToNode.Keys == LruSpec.Keys(Project(payload, order))
  {
    assert forall j :: 0 <= j < |order| ==> order[j] in order;
    var e := Project(payload, order);
    forall a, b | 0 <= a < b < |e| ensures e[a].key != e[b].key {
      assert order[a] in order && order[b] in order;
    }
    forall k ensures k in keyToNode <==> k in LruSpec.Keys(e) {
      if k in keyToNode {
        var j := IndexOf(order, keyToNode[k].slot);
        assert e[j].key == k;
      }
      if k in LruSpec.Keys(e) {
        var j :| 0 <= j < |e| && e[j].key == k;
        assert order[j] in order;
      }
    }
  }

  /** Moving a node to the front keeps the bijection. */
  lemma BijectionMoveToFront<K, V>(keyToNode: map<K, Node<Pair<K, V>>>, list: IntrusiveLruList<Pair<K, V>>,
                                   payload: map<nat, Pair<K, V>>, order: seq<nat>, i: nat)
    requires Bijection(keyToNode, list, payload, order) && Distinct(order) && i < |order|
    ensures Bijection(keyToNode, list, payload, MoveToFront(order, i))
  {
    MoveToFrontElements(order, i);
  }

  /** Linking a new node for a new key at the front, and mapping the key to it, keeps the bijection. */
  lemma BijectionAddFront<K, V>(keyToNode: map<K, Node<Pair<K, V>>>, list: IntrusiveLruList<Pair<K, V>>,
                                payload: map<nat, Pair<K, V>>, order: seq<nat>, x: nat, p: Pair<K, V>)
    requires Bijection(keyToNode, list, payload, order)
    requires p.key !in keyToNode && x !in order && x !in payload
    ensures Bijection(keyToNode[p.key := Node(list, x)], list, payload[x := p], [x] + order)
  {
  }

  /**
   * Unlinking the back node and dropping its key from the map keeps the bijection, and the
   * entries lose their last one.
   */
  lemma BijectionEvict<K, V>(keyToNode: map<K, Node<Pair<K, V>>>, list: IntrusiveLruList<Pair<K, V>>,
                             payload: map<nat, Pair<K, V>>, order: seq<nat>, entries: seq<Pair<K, V>>)
    requires Bijection(keyToNode, list, payload, order) && Distinct(order) && order != []
    requires forall j :: 0 <= j < |order| ==> order[j] in payload
    requires Project(payload, order) == entries
    ensures Bijection(keyToNode - {payload[order[|order| - 1]].key}, list, payload, order[..|order| - 1])
    ensures Project(payload, order[..|order| - 1]) == entries[..|entries| - 1]
  {
    ProjectDropLast(payload, order);
    var last := order[|order| - 1];
    var gone := payload[last].key;
    assert last in order;
    forall s | s in order[..|order| - 1] ensures s in order && s != last {
      var j :| 0 <= j < |order| - 1 && order[j] == s;
    }
    forall k | k in keyToNode && k != gone ensures keyToNode[k].slot in order[..|order| - 1] {
      var j := IndexOf(order, keyToNode[k].slot);
      assert j != |order| - 1;
      assert order[..|order| - 1][j] == order[j];
    }
  }

  class LruCache<K(==), V> {
    const capacity: int
    /** The list of entries, most recently used at the front. */
    const values: IntrusiveLruList<Pair<K, V>>
    var keyToNode: map<K, Node<Pair<K, V>>>

    ghost predicate Valid()
      reads this, values
    {
      values.Valid() && 0 < capacity && values.size <= capacity &&
      Bijection(keyToNode, values, values.payload, values.Order)
    }

    /** The cache's entries, most recently used first. */
    ghost function Entries(): seq<Pair<K, V>>
      reads this, values
      requires Valid()
    {
      values.Elements()
    }

    /** A cache of capacity `capacity`, empty. */
    constructor (capacity: int)
      requires 0 < capacity
      ensures Valid() && fresh(values)
      ensures this.capacity == capacity && Entries() == [] && keyToNode == map[]
    {
      this.capacity := capacity;
      values := new IntrusiveLruList();
      keyToNode := map[];
    }

    /** A cache of the default capacity, empty. */
    constructor Default()
      ensures Valid() && fresh(values)
      ensures capacity == DEFAULT_CAPACITY && Entries() == [] && keyToNode == map[]
    {
      capacity := DEFAULT_CAPACITY;
      values := new IntrusiveLruList();
      keyToNode := map[];
    }

    /** Construction with a capacity that is not positive fails with IllegalArgument. */
    static method Create(capacity: int) returns (r: Result<LruCache<K, V>, Error>)
      ensures r.Failure? <==> capacity <= 0
      ensures r.Failure? ==> r.error == IllegalArgument
      ensures r.Success? ==>
        fresh(r.value) && fresh(r.value.values) && r.value.Valid() &&
        r.value.capacity == capacity && r.value.Entries() == []
    {
      if capacity <= 0 {
        return Failure(IllegalArgument);
      }
      var cache := new LruCache(capacity);
      r := Success(cache);
    }

    /** The cache's invariant gives the entries unique keys, as many as the capacity at most, and the map's keys. */
    lemma EntriesKeepInv()
      requires Valid()
      ensures LruSpec.Inv(Entries(), capacity) && keyToNode.Keys == LruSpec.Keys(Entries())
    {
      BijectionKeys(keyToNode, values, values.payload, values.Order);
    }

    /** `getSize`: the number of entries, which never exceeds the capacity. */
    function GetSize(): (n: int)
      reads this, values
      requires Valid()
      ensures n == |Entries()| && 0 <= n <= capacity
    {
      values.GetSize()
    }

    /** `getCapacity`: the capacity fixed at construction, always positive. */
    function GetCapacity(): (c: int)
      reads this, values
      requires Valid()
      ensures 0 < c && GetSize() <= c
    {
      capacity
    }

    /**
     * `doGet`: the value stored for `key`, its entry moved to the front; nothing for a key that
     * is absent. The map is not changed.
     */
    method DoGet(key: K) returns (result: Option<V>)
      requires Valid()
      modifies values
      ensures Valid() && keyToNode == old(keyToNode)
      ensures (result, Entries()) == LruSpec.Get(old(Entries()), key)
    {
      BijectionKeys(keyToNode, values, values.payload, values.Order);
      ghost var before := Entries();
      LruSpec.FindUnique(before, key);
      if key !in keyToNode {
        return None;
      }
      var node := keyToNode[key];
      ghost var i := IndexOf(values.Order, node.slot);
      assert before[i].key == key;
      ProjectMoveToFront(values.payload, values.Order, i);
      BijectionMoveToFront(keyToNode, values, values.payload, values.Order, i);
      var touched := values.Touch(node);
      node := touched.value;
      result := Some(node.GetValue().value);
    }

    /**
     * The first step of `doPut` for a key not yet mapped: a node for `(key, value)` is made and
     * linked at the front. `TouchOrAdd` then maps the key to it.
     */
    method AddNew(key: K, value: V) returns (node: Node<Pair<K, V>>)
      requires Valid() && key !in keyToNode
      modifies values
      ensures values.Valid() && values.size == old(values.size) + 1
      ensures node.list == values && values.Order != [] && values.Order[0] == node.slot
      ensures Project(values.payload, values.Order) == [Pair(key, value)] + old(Entries())
      ensures Bijection(keyToNode[key := node], values, values.payload, values.Order)
    {
      ghost var before := Entries();
      var made := values.NewNode(Pair(key, value));
      assert Project(values.payload, [made.slot] + values.Order) == [Pair(key, value)] + before &&
             Bijection(keyToNode[key := made], values, values.payload, [made.slot] + values.Order) by {
        BijectionKeys(keyToNode, values, old(values.payload), values.Order);
        ProjectExtend(old(values.payload), values.Order, made.slot, Pair(key, value));
        ProjectPrepend(values.payload, values.Order, made.slot);
        BijectionAddFront(keyToNode, values, old(values.payload), values.Order, made.slot, Pair(key, value));
      }
      var added := values.AddFront(made);
      node := added.value;
    }

    /**
     * The first half of `doPut`: the node of a present key, or a new node for `(key, value)`
     * linked at the front, is touched and mapped from the key. The list may now hold one node
     * more than `capacity`.
     */
    method TouchOrAdd(key: K, value: V)
      requires Valid()
      modifies this, values
      ensures values.Valid() && values.size <= capacity + 1
      ensures Bijection(keyToNode, values, values.payload, values.Order)
      ensures values.Elements() == LruSpec.Touched(old(Entries()), key, value)
    {
      ghost var before := Entries();
      ghost var touchedSpec := LruSpec.Touched(before, key, value);
      assert |before| <= capacity && (key in keyToNode <==> LruSpec.Find(before, key).Some?) by {
        BijectionKeys(keyToNode, values, values.payload, values.Order);
        LruSpec.FindUnique(before, key);
      }
      var node: Node<Pair<K, V>>;
      if key in keyToNode {
        node := keyToNode[key];
        assert node.list == values && node.slot in values.Order;
        assert Project(values.payload, MoveToFront(values.Order, IndexOf(values.Order, node.slot))) == touchedSpec by {
          BijectionKeys(keyToNode, values, values.payload, values.Order);
          LruSpec.FindUnique(before, key);
          var i := IndexOf(values.Order, node.slot);
          assert before[i].key == key;
          ProjectMoveToFront(values.payload, values.Order, i);
        }
        assert Bijection(keyToNode[key := node], values, values.payload, values.Order) by {
          assert keyToNode[key := node] == keyToNode;
        }
      } else {
        node := AddNew(key, value);
        assert Project(values.payload, MoveToFront(values.Order, IndexOf(values.Order, node.slot))) == touchedSpec by {
          IndexOfDistinct(values.Order, 0);
          MoveToFrontFirst(values.Order);
        }
      }
      ghost var i := IndexOf(values.Order, node.slot);
      assert values.size <= capacity + 1;
      assert Bijection(keyToNode[key := node], values, values.payload, MoveToFront(values.Order, i)) by {
        BijectionMoveToFront(keyToNode[key := node], values, values.payload, values.Order, i);
      }
      var touched := values.Touch(node);
      keyToNode := keyToNode[key := touched.value];
    }

    /**
     * The eviction step of `doPut`: the back node is unlinked and its key dropped from the map,
     * bringing a list one node over capacity back to capacity.
     */
    method EvictBack()
      requires values.Valid() && Bijection(keyToNode, values, values.payload, values.Order)
      requires 0 < capacity && values.size == capacity + 1
      modifies this, values
      ensures Valid()
      ensures Entries() == old(values.Elements())[..|old(values.Elements())| - 1]
    {
      ghost var order, payload := values.Order, values.payload;
      BijectionEvict(keyToNode, values, payload, order, values.Elements());
      var removed := values.RemoveBack();
      keyToNode := keyToNode - {removed.value.GetValue().key};
      assert values.Order == order[..|order| - 1] && values.payload == payload;
    }

    /**
     * `doPut`: moves a present key to the front, keeping its stored value, or links a new node
     * for `(key, value)` at the front and maps the key to it. If the list then holds more than
     * `capacity` nodes, the back node is unlinked and its key dropped from the map, and the
     * result is true.
     */
    method DoPut(key: K, value: V) returns (kicked: bool)
      requires Valid()
      modifies this, values
      ensures Valid()
      ensures (Entries(), kicked) == LruSpec.Put(old(Entries()), capacity, key, value)
    {
      TouchOrAdd(key, value);
      if values.GetSize() > capacity {
        EvictBack();
        return true;
      }
      return false;
    }
  }
}
