/**
 * What the LRU cache stores, as a value: its entries, most recently used first. `Get` and `Put`
 * say what `doGet` and `doPut` do to the entries; the lemmas state the laws the cache keeps.
 */
module LruSpec {
  import opened Wrappers
  import opened Seqs
  import opened Pairs

  /** The keys held by the entries. */
  function Keys<K, V>(entries: seq<Pair<K, V>>): set<K> {
    set i | 0 <= i < |entries| :: entries[i].key
  }

  /** No key is held by two entries. */
  ghost predicate UniqueKeys<K, V>(entries: seq<Pair<K, V>>) {
    forall i, j :: 0 <= i < j < |entries| ==> entries[i].key != entries[j].key
  }

  /** The position of the most recently used entry for `k`, if there is one. */
  function Find<K(==), V>(entries: seq<Pair<K, V>>, k: K): (r: Option<nat>)
    ensures r.Some? ==> r.value < |entries| && entries[r.value].key == k
    ensures r.Some? ==> forall j :: 0 <= j < r.value ==> entries[j].key != k
    ensures r.None? ==> forall j :: 0 <= j < |entries| ==> entries[j].key != k
  {
    if entries == [] then None
    else if entries[0].key == k then Some(0)
    else match Find(entries[1..], k)
      case None => None
      case Some(i) => Some(i + 1)
  }

  /** With unique keys, `Find` locates the one entry holding the key, and finds nothing else. */
  lemma FindUnique<K, V>(entries: seq<Pair<K, V>>, k: K)
    requires UniqueKeys(entries)
    ensures Find(entries, k).Some? <==> k in Keys(entries)
    ensures forall i :: 0 <= i < |entries| && entries[i].key == k ==> Find(entries, k) == Some(i)
  {
    if k in Keys(entries) {
      var i :| 0 <= i < |entries| && entries[i].key == k;
      assert Find(entries, k).Some?;
    }
  }

  /** The value stored for `k`, if any. */
  function Lookup<K(==), V>(entries: seq<Pair<K, V>>, k: K): Option<V> {
    match Find(entries, k)
    case None => None
    case Some(i) => Some(entries[i].value)
  }

  /**
   * `doGet`: the value stored for `k`, with its entry moved to the front. An absent key
   * leaves the entries as they are.
   */
  function Get<K(==), V>(entries: seq<Pair<K, V>>, k: K): (Option<V>, seq<Pair<K, V>>) {
    match Find(entries, k)
    case None => (None, entries)
    case Some(i) => (Some(entries[i].value), MoveToFront(entries, i))
  }

  /**
   * The first half of `doPut`: a key already present has its entry moved to the front and keeps
   * its stored value; a new key gets the entry `(k, v)` at the front.
   */
  function Touched<K(==), V>(entries: seq<Pair<K, V>>, k: K, v: V): seq<Pair<K, V>> {
    match Find(entries, k)
    case None => [Pair(k, v)] + entries
    case Some(i) => MoveToFront(entries, i)
  }

  /**
   * `doPut`: the entries after `Touched`, and if that leaves more entries than `capacity`, the
   * back entry is dropped. The flag says whether an entry was dropped.
   */
  function Put<K(==), V>(entries: seq<Pair<K, V>>, capacity: int, k: K, v: V): (seq<Pair<K, V>>, bool) {
    var touched := Touched(entries, k, v);
    if |touched| > capacity then (touched[..|touched| - 1], true) else (touched, false)
  }

  /** What holds of the entries at every call boundary: unique keys, no more entries than the capacity. */
  ghost predicate Inv<K, V>(entries: seq<Pair<K, V>>, capacity: int) {
    UniqueKeys(entries) && |entries| <= capacity
  }

  /** Moving an entry to the front keeps the entries and their keys, and puts that entry first. */
  lemma {:induction false} MoveToFrontKeys<K, V>(entries: seq<Pair<K, V>>, i: nat)
    requires UniqueKeys(entries) && i < |entries|
    ensures var after := MoveToFront(entries, i);
      |after| == |entries| && after[0] == entries[i] && UniqueKeys(after) &&
      Keys(after) == Keys(entries) && multiset(after) == multiset(entries)
  {
    var after := MoveToFront(entries, i);
    MoveToFrontSameMultiset(entries, i);
    forall a, b | 0 <= a < b < |after| ensures after[a].key != after[b].key {
      MoveToFrontAt(entries, i, a);
      MoveToFrontAt(entries, i, b);
    }
    forall k ensures k in Keys(after) <==> k in Keys(entries) {
      if k in Keys(after) {
        var a :| 0 <= a < |after| && after[a].key == k;
        MoveToFrontAt(entries, i, a);
      }
      if k in Keys(entries) {
        var a :| 0 <= a < |entries| && entries[a].key == k;
        var a' := if a == i then 0 else if a < i then a + 1 else a;
        MoveToFrontAt(entries, i, a');
      }
    }
  }

  /**
   * `doGet` on a present key returns its stored value and moves it to the front; on an absent key
   * it returns nothing and changes nothing. Either way the size and the key set stay the same.
   */
  lemma GetLaw<K, V>(entries: seq<Pair<K, V>>, k: K)
    requires UniqueKeys(entries)
    ensures var (r, after) := Get(entries, k);
      (r.Some? <==> k in Keys(entries)) &&
      r == Lookup(entries, k) &&
      (r.None? ==> after == entries) &&
      (r.Some? ==> Pair(k, r.value) in entries && after[0] == Pair(k, r.value)) &&
      |after| == |entries| && Keys(after) == Keys(entries) && UniqueKeys(after) &&
      multiset(after) == multiset(entries)
  {
    FindUnique(entries, k);
    match Find(entries, k)
    case None =>
    case Some(i) => MoveToFrontKeys(entries, i);
  }

  /** Putting an entry for a new key in front keeps the keys unique and adds that key. */
  lemma PrependKeys<K, V>(entries: seq<Pair<K, V>>, p: Pair<K, V>)
    requires UniqueKeys(entries) && p.key !in Keys(entries)
    ensures UniqueKeys([p] + entries) && Keys([p] + entries) == Keys(entries) + {p.key}
  {
    var longer := [p] + entries;
    forall a, b | 0 <= a < b < |longer| ensures longer[a].key != longer[b].key {
      assert longer[b] == entries[b - 1];
      if a > 0 { assert longer[a] == entries[a - 1]; }
    }
    forall key ensures key in Keys(longer) <==> key in Keys(entries) + {p.key} {
      if key == p.key {
        assert longer[0].key == key;
      }
      if key in Keys(entries) {
        var a :| 0 <= a < |entries| && entries[a].key == key;
        assert longer[a + 1] == entries[a];
      }
      if key in Keys(longer) {
        var a :| 0 <= a < |longer| && longer[a].key == key;
        if a > 0 { assert longer[a] == entries[a - 1]; }
      }
    }
  }

  /** Dropping the back entry keeps the keys unique and removes exactly the back entry's key. */
  lemma DropLastKeys<K, V>(entries: seq<Pair<K, V>>)
    requires UniqueKeys(entries) && entries != []
    ensures var shorter := entries[..|entries| - 1];
      UniqueKeys(shorter) && Keys(shorter) == Keys(entries) - {entries[|entries| - 1].key}
  {
    var shorter := entries[..|entries| - 1];
    var last := entries[|entries| - 1];
    forall key ensures key in Keys(shorter) <==> key in Keys(entries) && key != last.key {
      if key in Keys(shorter) {
        var a :| 0 <= a < |shorter| && shorter[a].key == key;
        assert shorter[a] == entries[a];
      }
      if key in Keys(entries) && key != last.key {
        var a :| 0 <= a < |entries| && entries[a].key == key;
        assert a != |entries| - 1;
        assert shorter[a] == entries[a];
      }
    }
  }

  /**
   * `doPut` leaves the key just put at the front, with the value it already had if it was present
   * (the new value is dropped) or with the new value otherwise. It reports an eviction exactly when
   * a new key arrives at a full cache; the cache never exceeds its capacity and keys stay unique.
   */
  lemma PutLaw<K, V>(entries: seq<Pair<K, V>>, capacity: int, k: K, v: V)
    requires Inv(entries, capacity) && 0 < capacity
    ensures var (after, kicked) := Put(entries, capacity, k, v);
      Inv(after, capacity) && after != [] && after[0].key == k &&
      after[0].value == (match Lookup(entries, k) case Some(stored) => stored case None => v) &&
      (kicked <==> k !in Keys(entries) && |entries| == capacity) &&
      Keys(after) == (if kicked then Keys(entries) - {entries[|entries| - 1].key} else Keys(entries)) + {k}
  {
    FindUnique(entries, k);
    match Find(entries, k)
    case Some(i) =>
      MoveToFrontKeys(entries, i);
    case None =>
      var touched := [Pair(k, v)] + entries;
      PrependKeys(entries, Pair(k, v));
      if |touched| > capacity {
        DropLastKeys(touched);
        assert touched[|touched| - 1] == entries[|entries| - 1];
      }
  }

  /**
   * Eviction takes the least recently used entry, the back one, and never the key just put:
   * the new key goes to the front and the other entries keep their order.
   */
  lemma PutEvictsLeastRecent<K, V>(entries: seq<Pair<K, V>>, capacity: int, k: K, v: V)
    requires Inv(entries, capacity) && 0 < capacity
    requires Put(entries, capacity, k, v).1
    ensures entries != [] && entries[|entries| - 1].key != k
    ensures Put(entries, capacity, k, v).0 == [Pair(k, v)] + entries[..|entries| - 1]
    ensures entries[|entries| - 1].key !in Keys(Put(entries, capacity, k, v).0)
  {
    PutLaw(entries, capacity, k, v);
    FindUnique(entries, k);
    var touched := [Pair(k, v)] + entries;
    assert touched[..|touched| - 1] == [Pair(k, v)] + entries[..|entries| - 1];
  }

  /**
   * A `get` right after a `put` of `k` finds `k`: with the value it already had if it was
   * present, with the value just put otherwise, even at capacity 1.
   */
  lemma PutThenLookup<K, V>(entries: seq<Pair<K, V>>, capacity: int, k: K, v: V)
    requires Inv(entries, capacity) && 0 < capacity
    ensures Lookup(Put(entries, capacity, k, v).0, k) ==
      Some(match Lookup(entries, k) case Some(stored) => stored case None => v)
  {
    var after := Put(entries, capacity, k, v).0;
    PutLaw(entries, capacity, k, v);
    assert Find(after, k) == Some(0);
  }

  /** One call of the cache's public interface. */
  datatype Op<K, V> = GetOp(key: K) | PutOp(key: K, value: V)

  /** The entries after one call. */
  function Step<K(==), V>(entries: seq<Pair<K, V>>, capacity: int, op: Op<K, V>): seq<Pair<K, V>> {
    match op
    case GetOp(k) => Get(entries, k).1
    case PutOp(k, v) => Put(entries, capacity, k, v).0
  }

  /** The entries after a sequence of calls, first call first. */
  function Run<K(==), V>(entries: seq<Pair<K, V>>, capacity: int, ops: seq<Op<K, V>>): seq<Pair<K, V>>
    decreases |ops|
  {
    if ops == [] then entries else Run(Step(entries, capacity, ops[0]), capacity, ops[1..])
  }

  /** The capacity bound and the uniqueness of keys hold after every sequence of calls. */
  lemma {:induction false} RunKeepsInv<K, V>(entries: seq<Pair<K, V>>, capacity: int, ops: seq<Op<K, V>>)
    requires Inv(entries, capacity) && 0 < capacity
    ensures Inv(Run(entries, capacity, ops), capacity)
    decreases |ops|
  {
    if ops != [] {
      match ops[0] {
        case GetOp(k) => GetLaw(entries, k);
        case PutOp(k, v) => PutLaw(entries, capacity, k, v);
      }
      RunKeepsInv(Step(entries, capacity, ops[0]), capacity, ops[1..]);
    }
  }
}
