# LRU cache, modelled and proved in Dafny

This project models a small Java LRU cache (`ru.itmo.sdcourse.cache`). The cache has three layers:

- **`IntrusiveLruList<T>`** is a doubly-linked list with two sentinel nodes, `head` and `tail`.
  - Callers hold node handles. `unlink`, `linkNext`, `addFront`, `removeBack` and `touch` rewire the
    neighbouring nodes' `next`/`prev` fields in place and update `size`.
  - Each node knows the list that made it. `checkNode` refuses nodes of another list, `checkNewNode`
    refuses nodes that are already linked, and `checkNotEmpty` refuses to unlink from an empty list.
- **`LruCache<K, V>`** keeps one such list of `Pair(key, value)` entries, most recently used first,
  plus a `HashMap` from each key to the node holding it.
  - `doGet` touches the key's node.
  - `doPut` links a new key at the front, or touches a present key. If the size then exceeds the
    capacity, it unlinks the back node and removes that node's key from the map.
- **`AbstractCache<K, V>`** provides the public `get` and `put`.
  - Around the hooks it checks, with Java `assert`s, that `0 <= size <= capacity`, that the capacity
    does not change, and how `put` changed the size.
  - `put` refuses a null value with `Validate.notNull`.

The model, file by file:

- `wrappers.dfy`: `Option`, `Result` and `Outcome`, plus the `Error` kinds the source throws
  (IllegalArgument, NoSuchElement, NullPointer).
- `pair.dfy`: the `Pair` record.
- `seqs.dfy`: the sequence operations the list's order undergoes (remove at, insert at, move to
  front), with their laws.
- `links.dfy`: the list's link structure as an arena.
  - Slot 0 is `head` and slot 1 is `tail`; `NIL` is the null link.
  - `WellFormed(next, prev, order)` says that walking `next` from `head` meets exactly the slots of
    `order` and then `tail`, and that `prev` is the reverse walk.
  - `UnlinkWellFormed` and `LinkWellFormed` prove that the Java list's four-assignment link surgery
    preserves `WellFormed` and removes or inserts exactly one slot of `order`.
- `intrusive_lru_list.dfy`: the list as a class.
  - The sequences `next` and `prev` and the map `payload` are fields rewritten in place, and there is a `size`
    field.
  - A ghost `Order` lists the linked slots from front to back.
  - A handle is `Node(list, slot)`; `node.list == this` is the source's `getList() == this`.
  - `Unlink`, `LinkNext`, `AddFront`, `RemoveBack` and `Touch` return a `Result`. Its failure cases
    are the exceptions these methods throw, in the order of the Java list's checks. The exception is
    the null-node check of `checkNode` (see Left out). `NewNode` and `GetSize` cannot fail.
- `lru_spec.dfy`: the cache as a value, a sequence of entries with the most recently used first.
  - `Get`, `Touched` and `Put` say what `doGet` and `doPut` do to that sequence.
  - The lemmas state the laws of the cache on it: the invariant, eviction order, and lookup after
    put.
- `lru_cache.dfy`: the cache as a class, holding the list and a `map` from keys to handles.
  - `Bijection` is its map/list invariant.
  - `DoGet` and `DoPut` are proved to act on `Entries()` exactly as `LruSpec.Get` and `LruSpec.Put` do.
  - `DoPut` is split into three steps, each a method with its own contract, which keeps each
    proof small:
    - `AddNew` makes and links the node of a new key (source line 54);
    - `TouchOrAdd` touches the key's node and maps the key to it (source lines 52-56);
    - `EvictBack` unlinks the back node and drops its key (source lines 58-63).
- `abstract_cache.dfy`: the template methods `get` and `put` as methods over an `LruCache`, the only
  subclass. Each Java `assert` becomes a Dafny `assert`, proved for every call, with two exceptions:
  the size check of `put`, and the `assert result != null` of `get`, which is left out.
  - The size check of `put` does not hold as written (see Findings). The corrected law `SizeLaw`
    is proved and asserted in its place.

Putting a key that is already present keeps the value stored before; the new value is dropped.
The model follows the code here, and `PutLaw` states it. Whether this is intended is open, so it is
kept, not changed.

## Model

| member | source | states |
|---|---|---|
| Seqs.RemoveInsertAt | src/main/java/ru/itmo/sdcourse/cache/impl/IntrusiveLruList.java:39-72 | unlinking a node just linked at position i finds it at i and gives back the previous order |
| Links.EmptyWellFormed | src/main/java/ru/itmo/sdcourse/cache/impl/IntrusiveLruList.java:19-27 | a list whose head points at tail and whose tail points back at head, with no nodes, is well formed |
| Links.LinkedIff | src/main/java/ru/itmo/sdcourse/cache/impl/IntrusiveLruList.java:161-163 | in a well-formed list a node has both links non-null exactly when it is one of the linked nodes |
| Links.Ends | src/main/java/ru/itmo/sdcourse/cache/impl/IntrusiveLruList.java:87-96 | head.next is tail, and tail.prev is head, exactly when the list is empty; otherwise head.next is the front node and tail.prev the back node |
| Links.GrowWellFormed | src/main/java/ru/itmo/sdcourse/cache/impl/IntrusiveLruList.java:125-127 | adding a node with null links leaves the list well formed with the same nodes |
| Links.UnlinkWellFormed | src/main/java/ru/itmo/sdcourse/cache/impl/IntrusiveLruList.java:43-47 | the node's prev and next are its neighbours on the chain; bypassing it and nulling its links leaves a well-formed list of the other nodes in the same order |
| Links.LinkWellFormed | src/main/java/ru/itmo/sdcourse/cache/impl/IntrusiveLruList.java:66-70 | splicing an unlinked node after an anchor gives a well-formed list with the node right after the anchor and the other nodes in the same order |
| LruLists.IntrusiveLruList.constructor | src/main/java/ru/itmo/sdcourse/cache/impl/IntrusiveLruList.java:19-27 | a new list is valid and empty, with size 0, head.next == tail and tail.prev == head |
| LruLists.IntrusiveLruList.GetSize | src/main/java/ru/itmo/sdcourse/cache/impl/IntrusiveLruList.java:115-117 | the size is the number of linked nodes, and the number of values in the list |
| LruLists.IntrusiveLruList.NewNode | src/main/java/ru/itmo/sdcourse/cache/impl/IntrusiveLruList.java:125-127 | the new node belongs to this list, holds the value and is not linked; the linked nodes and the size do not change |
| LruLists.IntrusiveLruList.Unlink | src/main/java/ru/itmo/sdcourse/cache/impl/IntrusiveLruList.java:39-49 | a node of another list fails with IllegalArgument and then an empty list with NoSuchElement, leaving the list unchanged; otherwise exactly that node leaves the order, the size drops by one, and the node's links become null |
| LruLists.IntrusiveLruList.LinkNext | src/main/java/ru/itmo/sdcourse/cache/impl/IntrusiveLruList.java:61-72 | either node from another list, or a new node that is already linked, fails with IllegalArgument and leaves the list unchanged; otherwise the new node is inserted right after the anchor, the size grows by one and the other nodes keep their order |
| LruLists.IntrusiveLruList.AddFront | src/main/java/ru/itmo/sdcourse/cache/impl/IntrusiveLruList.java:83-85 | refused as linkNext refuses it; otherwise the node becomes the front node, before all the others, and the size grows by one |
| LruLists.IntrusiveLruList.RemoveBack | src/main/java/ru/itmo/sdcourse/cache/impl/IntrusiveLruList.java:87-96 | an empty list fails with NoSuchElement and is unchanged; otherwise it returns the back node and removes it, with null links, leaving the other nodes in order |
| LruLists.IntrusiveLruList.Touch | src/main/java/ru/itmo/sdcourse/cache/impl/IntrusiveLruList.java:98-110 | refused as unlink refuses it; otherwise it returns the same node, moves it to the front, and keeps the size and the order of the other nodes |
| LruSpec.Find | src/main/java/ru/itmo/sdcourse/cache/LruCache.java:42 | a found position holds the key and no earlier entry does; nothing found means no entry holds the key |
| LruSpec.FindUnique | src/main/java/ru/itmo/sdcourse/cache/LruCache.java:15-16 | with unique keys, a key is found exactly when it is held, at the one position holding it |
| LruSpec.MoveToFrontKeys | src/main/java/ru/itmo/sdcourse/cache/LruCache.java:46 | touching an entry puts it first and keeps the size, the key set, the uniqueness of keys and the multiset of entries |
| LruSpec.GetLaw | src/main/java/ru/itmo/sdcourse/cache/LruCache.java:41-48 | doGet finds a value exactly when the key is present; that value is the stored one and its entry moves to the front; an absent key changes nothing; size and key set are unchanged |
| LruSpec.PrependKeys | src/main/java/ru/itmo/sdcourse/cache/LruCache.java:53-54 | a new key linked at the front keeps the keys unique and adds exactly that key |
| LruSpec.DropLastKeys | src/main/java/ru/itmo/sdcourse/cache/LruCache.java:59-60 | removing the back entry keeps the keys unique and removes exactly its key |
| LruSpec.PutLaw | src/main/java/ru/itmo/sdcourse/cache/LruCache.java:51-66 | doPut keeps unique keys and the capacity bound and puts the key first; the key keeps its old value if it was present and gets the new value otherwise; doPut evicts exactly when a new key meets a full cache; the key set is updated accordingly |
| LruSpec.PutEvictsLeastRecent | src/main/java/ru/itmo/sdcourse/cache/LruCache.java:58-63 | an eviction removes the back entry, never the key just put; the result is the new entry followed by all old entries but the last, in order |
| LruSpec.PutThenLookup | src/test/java/ru/itmo/sdcourse/cache/LRUCacheTest.java:29-44 | a get right after a put of a key finds it, with its old value if it was present and the new value otherwise, at every capacity including 1 |
| LruSpec.RunKeepsInv | src/main/java/ru/itmo/sdcourse/cache/AbstractCache.java:10-12 | after any sequence of gets and puts, keys are unique and the size is within the capacity, so the entry check of get and put always holds |
| LruCaches.BijectionKeys | src/main/java/ru/itmo/sdcourse/cache/LruCache.java:15-16 | through the map/list bijection, the list's entries have unique keys and the map's key set is exactly their key set |
| LruCaches.BijectionMoveToFront | src/main/java/ru/itmo/sdcourse/cache/LruCache.java:46 | touching a node keeps the bijection |
| LruCaches.BijectionAddFront | src/main/java/ru/itmo/sdcourse/cache/LruCache.java:53-56 | linking a new node for a new key at the front, and mapping the key to it, keeps the bijection |
| LruCaches.BijectionEvict | src/main/java/ru/itmo/sdcourse/cache/LruCache.java:59-60 | unlinking the back node and removing its key from the map keeps the bijection and drops the last entry |
| LruCaches.LruCache.constructor | src/main/java/ru/itmo/sdcourse/cache/LruCache.java:22-28 | a cache of a positive capacity starts valid and empty, with an empty map |
| LruCaches.LruCache.Default | src/main/java/ru/itmo/sdcourse/cache/LruCache.java:18-20 | the no-argument cache has capacity 32 and starts valid and empty |
| LruCaches.LruCache.Create | src/main/java/ru/itmo/sdcourse/cache/LruCache.java:22-23 | construction fails with IllegalArgument exactly when the capacity is not positive; otherwise it gives a fresh, valid, empty cache of that capacity |
| LruCaches.LruCache.EntriesKeepInv | src/main/java/ru/itmo/sdcourse/cache/LruCache.java:14-16 | a valid cache's entries have unique keys and at most capacity of them, and the map's keys are exactly their keys |
| LruCaches.LruCache.GetSize | src/main/java/ru/itmo/sdcourse/cache/LruCache.java:31-33 | the size is the number of entries and lies between 0 and the capacity |
| LruCaches.LruCache.GetCapacity | src/main/java/ru/itmo/sdcourse/cache/LruCache.java:36-38 | the capacity is positive and bounds the size |
| LruCaches.LruCache.DoGet | src/main/java/ru/itmo/sdcourse/cache/LruCache.java:41-48 | the result and the new entries are those of `LruSpec.Get`; the map is unchanged and the cache stays valid |
| LruCaches.LruCache.AddNew | src/main/java/ru/itmo/sdcourse/cache/LruCache.java:54 | for a key not yet mapped: the list grows by one, with the new entry `(key, value)` in front of the old entries, and mapping the key to the new node keeps the bijection |
| LruCaches.LruCache.TouchOrAdd | src/main/java/ru/itmo/sdcourse/cache/LruCache.java:52-56 | after this step the list holds the entries of `LruSpec.Touched`, the bijection holds, and the size is at most the capacity plus one |
| LruCaches.LruCache.EvictBack | src/main/java/ru/itmo/sdcourse/cache/LruCache.java:58-63 | from one node over capacity: the entries lose exactly their back entry, and the cache is valid again |
| LruCaches.LruCache.DoPut | src/main/java/ru/itmo/sdcourse/cache/LruCache.java:51-66 | the new entries and the eviction flag are those of `LruSpec.Put`, and the cache stays valid |
| AbstractCaches.PutSizeLaw | src/main/java/ru/itmo/sdcourse/cache/AbstractCache.java:34-41 | after doPut, an eviction or a present key leaves the size unchanged and otherwise it grows by one; a present key never comes with an eviction; the size stays between 1 and the capacity |
| AbstractCaches.AssertedSizeLawIff | src/main/java/ru/itmo/sdcourse/cache/AbstractCache.java:35-38 | the size check as written holds after doPut exactly when the key was not present |
| AbstractCaches.RepeatedPutBreaksAssertedLaw | src/main/java/ru/itmo/sdcourse/cache/AbstractCache.java:37-38 | with capacity 2, put(0, 0) then put(0, 1) evicts nothing and leaves the size at 1, so the check as written fails while SizeLaw holds |
| AbstractCaches.Get | src/main/java/ru/itmo/sdcourse/cache/AbstractCache.java:9-24 | starting from 0 <= size <= capacity, get returns what doGet returns, keeps the size and the capacity, and the cache stays valid |
| AbstractCaches.Put | src/main/java/ru/itmo/sdcourse/cache/AbstractCache.java:27-42 | a null value fails with NullPointer and changes nothing; otherwise the entries are those of `LruSpec.Put`, and the contract states that the size obeys SizeLaw (with the eviction flag of `LruSpec.Put` and whether the key was mapped), and that the size lies between 1 and the capacity, which is a constant |

## Left out

- `Cache.java`, the interface, has no model of its own. Its two operations are `AbstractCaches.Get` and `AbstractCaches.Put`.
- `AbstractCache` is an abstract class, and its hooks are dispatched dynamically. Here `get` and `put` are methods over `LruCache`, the only implementation.
- A null node passed to `unlink`, `linkNext`, `addFront` or `touch` is not modelled: handles are values and cannot be null. So the NullPointerException that the first check of `checkNode` (IntrusiveLruList.java:130) throws is not a failure case of the model. The same goes for a null key, which the source accepts as a `HashMap` key.
- Misuse that ends in a NullPointerException in the source is a precondition, not an outcome:
  - unlinking or touching a node that is not linked while the list is not empty;
  - linking after an anchor that is not linked, or after `tail`.
- Handing a sentinel to `linkNext` as the new node is a precondition. The source accepts it,
  because a sentinel's outer link is null, so `isLinked` is false. It then corrupts the chain
  silently, with no exception. The sentinels are private to the list, so this cannot happen.
- Nodes are arena slots that are never freed. A node unlinked from the list keeps its slot and value, as the Java object lives on. Object identity of nodes is slot identity.
- `checkNode`, `checkNewNode`, `checkNotEmpty`, `Node.getValue` and `Node.isLinked` are functions without contracts of their own. What they decide is stated in the contracts of the list operations that call them.
- Whether Java assertions are enabled (`-ea`) is not modelled: every assertion of `AbstractCache` is proved, except two. One is the size check of `put`, which
  fails (see Findings). The other is the `assert result != null` of `get`, which is left out (next line).
- The `assert result != null` of `get` is left out: an `Option` is never null.
- `HashMap` hashing, `equals`/`hashCode` and the initial-capacity hint are left out: the map is a Dafny `map` with built-in equality.
- Overflow of the Java `int` size is left out: sizes are unbounded integers. `doPut` links the new node before it evicts, so the size briefly reaches capacity + 1. At capacity `Integer.MAX_VALUE`, with a full cache, putting a new key would wrap `size++` (IntrusiveLruList.java:66) to `Integer.MIN_VALUE`. The test at LruCache.java:58 would then be false, nothing would be evicted, and the size would stay negative. Reaching it takes 2^31 - 1 live entries, so the model does not capture it.
- Concurrency is left out: the source is single-threaded.

## Findings

| source | as written | input that shows it | evidently intended | confidence | as-written member | corrected member |
|---|---|---|---|---|---|---|
| src/main/java/ru/itmo/sdcourse/cache/AbstractCache.java:37-38 | when `doPut` reports no eviction, `put` asserts that the size grew by one | capacity 2: `put(0, 0)` then `put(0, 1)`; the key is present, nothing is evicted, and the size stays 1 | a present key leaves the size unchanged (`doPut` only touches it, LruCache.java:52-56), so the check should allow for it | not executed | AbstractCaches.AssertedSizeLaw (shown failing by AbstractCaches.RepeatedPutBreaksAssertedLaw and AbstractCaches.AssertedSizeLawIff) | AbstractCaches.SizeLaw (proved by AbstractCaches.PutSizeLaw, asserted in AbstractCaches.Put) |
