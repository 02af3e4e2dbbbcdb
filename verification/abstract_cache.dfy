/**
 * The template methods of the abstract cache, `get` and `put`, over the LRU cache that fills in
 * the hooks `getSize`, `getCapacity`, `doGet` and `doPut`. The checks the template methods make
 * with Java assertions around the hooks become Dafny assertions, proved for every call; a null
 * value is `None` and is refused before the cache is touched.
 */
module AbstractCaches {
  import opened Wrappers
  import opened Pairs
  import opened LruCaches
  import LruSpec

  /**
   * The size check `put` makes after `doPut`, as written: without an eviction the size grew by
   * one, with an eviction it stayed the same. It does not allow for a key that was present.
   */
  predicate AssertedSizeLaw(oldSize: int, newSize: int, kicked: bool) {
    if kicked then newSize == oldSize else newSize == oldSize + 1
  }

  /**
   * The size law `doPut` keeps: a key that was present, or an eviction, leaves the size as it
   * was; otherwise the size grows by one.
   */
  predicate SizeLaw(oldSize: int, newSize: int, kicked: bool, present: bool) {
    if kicked || present then newSize == oldSize else newSize == oldSize + 1
  }

  /**
   * Every `doPut` keeps `SizeLaw`; a present key is never accompanied by an eviction, and the
   * size stays within the capacity.
   */
  lemma PutSizeLaw<K, V>(entries: seq<Pair<K, V>>, capacity: int, k: K, v: V)
    requires LruSpec.Inv(entries, capacity) && 0 < capacity
    ensures var (after, kicked) := LruSpec.Put(entries, capacity, k, v);
      SizeLaw(|entries|, |after|, kicked, k in LruSpec.Keys(entries)) &&
      (k in LruSpec.Keys(entries) ==> !kicked) &&
      0 < |after| <= capacity
  {
    LruSpec.FindUnique(entries, k);
    LruSpec.PutLaw(entries, capacity, k, v);
    match LruSpec.Find(entries, k)
    case Some(i) =>
      LruSpec.MoveToFrontKeys(entries, i);
    case None =>
  }

  /** The check as written holds after `doPut` exactly when the key was not present. */
  lemma AssertedSizeLawIff<K, V>(entries: seq<Pair<K, V>>, capacity: int, k: K, v: V)
    requires LruSpec.Inv(entries, capacity) && 0 < capacity
    ensures var (after, kicked) := LruSpec.Put(entries, capacity, k, v);
      AssertedSizeLaw(|entries|, |after|, kicked) <==> k !in LruSpec.Keys(entries)
  {
    PutSizeLaw(entries, capacity, k, v);
  }

  /**
   * A cache of capacity 2 holding the entry (0, 0), the state `put(0, 0)` leaves in an empty
   * cache: putting key 0 again evicts nothing and leaves the size at 1, so the check as written
   * fails, while `SizeLaw` holds.
   */
  lemma RepeatedPutBreaksAssertedLaw()
    ensures LruSpec.Put([], 2, 0, 0) == ([Pair(0, 0)], false)
    ensures var (after, kicked) := LruSpec.Put([Pair(0, 0)], 2, 0, 1);
      after == [Pair(0, 0)] && !kicked &&
      !AssertedSizeLaw(1, |after|, kicked) && SizeLaw(1, |after|, kicked, true)
  {
    assert LruSpec.Find<int, int>([], 0) == None;
    assert [Pair(0, 0)] + [] == [Pair(0, 0)];
    assert LruSpec.Find([Pair(0, 0)], 0) == Some(0);
    assert Seqs.MoveToFront([Pair(0, 0)], 0) == [Pair(0, 0)];
  }

  /**
   * `get`: the value stored for `key`, if any, with its entry moved to the front. The size and
   * the capacity are the same before and after, and the size stays within the capacity.
   */
  method Get<K(==), V>(cache: LruCache<K, V>, key: K) returns (result: Option<V>)
    requires cache.Valid()
    modifies cache.values
    ensures cache.Valid()
    ensures (result, cache.Entries()) == LruSpec.Get(old(cache.Entries()), key)
    ensures |cache.Entries()| == |old(cache.Entries())|
  {
    var size := cache.GetSize();
    var capacity := cache.GetCapacity();
    assert 0 <= size <= capacity;
    cache.EntriesKeepInv();
    LruSpec.GetLaw(cache.Entries(), key);

    result := cache.DoGet(key);

    assert cache.GetCapacity() == capacity;
    assert cache.GetSize() == size;
  }

  /**
   * `put`: a null value (`None`) fails with NullPointer and changes nothing. Otherwise `doPut`
   * runs; the size then obeys `SizeLaw`, the capacity is unchanged and the size stays within it.
   */
  method Put<K(==), V>(cache: LruCache<K, V>, key: K, value: Option<V>) returns (outcome: Outcome<Error>)
    requires cache.Valid()
    modifies cache, cache.values
    ensures cache.Valid()
    ensures value.None? ==> outcome == Fail(NullPointer) && unchanged(cache, cache.values)
    ensures value.Some? ==>
      outcome == Pass && cache.Entries() == LruSpec.Put(old(cache.Entries()), cache.capacity, key, value.value).0
    ensures value.Some? ==>
      0 < |cache.Entries()| <= cache.capacity &&
      SizeLaw(|old(cache.Entries())|, |cache.Entries()|,
              LruSpec.Put(old(cache.Entries()), cache.capacity, key, value.value).1, key in old(cache.keyToNode))
  {
    var oldSize := cache.GetSize();
    var capacity := cache.GetCapacity();
    assert 0 <= oldSize <= capacity;
    ghost var present := key in cache.keyToNode;
    cache.EntriesKeepInv();

    if value.None? {
      return Fail(NullPointer);
    }
    PutSizeLaw(cache.Entries(), capacity, key, value.value);

    var isKeyKicked := cache.DoPut(key, value.value);
    assert SizeLaw(oldSize, cache.GetSize(), isKeyKicked, present);

    assert cache.GetCapacity() == capacity;
    assert 0 <= cache.GetSize() <= capacity;
    outcome := Pass;
  }
}
