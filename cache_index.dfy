/**
 * How the LRU caches of internal/cache/cache.go and previewer/cache/cache.go
 * tie their index to their recency queue.
 *
 * Both caches keep `items`, a map from each key to the handle of its item in
 * a `LinkedList.List` whose items carry the key. `Indexed` is the invariant
 * that links the two, and `KeysOf` reads the keys off the queue from the least
 * to the most recently touched. The lemmas here show that every list
 * operation the caches perform keeps the invariant and acts on the keys as
 * the abstract recency order expects.
 */
module CacheIndex {
  import opened Wrappers
  import opened LinkedList

  /** Both caches' `Key`. */
  type Key = string

  /**
   * What a queue item holds besides its key: in the file-backed cache the key
   * again (the name of the entry's file) or, after an overwrite, the payload
   * itself; in the in-memory cache always the payload.
   */
  datatype Stored = FileName(name: Key) | Payload(pic: Bytes)

  /** The value of a queue item. */
  datatype Item = Item(Key: Key, Value: Stored)

  /** `key` becomes the most recently touched; the others keep their order. */
  function Touch(order: seq<Key>, key: Key): seq<Key> {
    Without(order, key) + [key]
  }

  /** The keys of the items at `addrs`. */
  function KeysOf(heap: seq<ListItem<Item>>, addrs: seq<nat>): (keys: seq<Key>)
    requires forall k :: 0 <= k < |addrs| ==> addrs[k] < |heap|
    ensures |keys| == |addrs|
    ensures forall k :: 0 <= k < |addrs| ==> keys[k] == heap[addrs[k]].Value.Key
  {
    seq(|addrs|, k requires 0 <= k < |addrs| => heap[addrs[k]].Value.Key)
  }
  /**
   * `items` maps the key of every item at `addrs` to that item, and has no
   * other keys; it has as many entries as there are items.
   */
  ghost predicate Indexed(items: map<Key, nat>, heap: seq<ListItem<Item>>, addrs: seq<nat>) {
    && (forall k :: 0 <= k < |addrs| ==> addrs[k] < |heap|)
    && |items| == |addrs|
    && (forall k :: 0 <= k < |addrs| ==> heap[addrs[k]].Value.Key in items && items[heap[addrs[k]].Value.Key] == addrs[k])
    && (forall key :: key in items ==> exists k :: 0 <= k < |addrs| && heap[addrs[k]].Value.Key == key)
  }
  /** `h` extends `h0` and keeps the key of every item `h0` holds. */
  ghost predicate KeepsKeys(h0: seq<ListItem<Item>>, h: seq<ListItem<Item>>) {
    |h0| <= |h| && forall a :: 0 <= a < |h0| ==> h[a].Value.Key == h0[a].Value.Key
  }
  /** The position in the list of the item the index gives for `key`. */
  lemma Lookup(items: map<Key, nat>, heap: seq<ListItem<Item>>, addrs: seq<nat>, key: Key) returns (j: nat)
    requires Indexed(items, heap, addrs) && key in items
    ensures j < |addrs| && addrs[j] == items[key] && addrs[j] < |heap| && heap[addrs[j]].Value.Key == key
  {
    j :| 0 <= j < |addrs| && heap[addrs[j]].Value.Key == key;
  }
  /** The keys of an indexed list are exactly the keys of the index. */
  lemma IndexedMembers(items: map<Key, nat>, heap: seq<ListItem<Item>>, addrs: seq<nat>)
    requires Indexed(items, heap, addrs)
    ensures forall key :: key in items <==> key in KeysOf(heap, addrs)
  {
    var keys := KeysOf(heap, addrs);
    forall key | key in items
      ensures key in keys
    {
      var k := Lookup(items, heap, addrs, key);
      assert keys[k] == key;
    }
  }
  /** The keys of an indexed list without repeated items are distinct. */
  lemma IndexedDistinct(items: map<Key, nat>, heap: seq<ListItem<Item>>, addrs: seq<nat>)
    requires Indexed(items, heap, addrs) && Distinct(addrs)
    ensures Distinct(KeysOf(heap, addrs))
  {
    var keys := KeysOf(heap, addrs);
    forall a, b | 0 <= a < b < |keys|
      ensures keys[a] != keys[b]
    {
      assert items[keys[a]] == addrs[a] && items[keys[b]] == addrs[b];
    }
  }
  /** The index depends on the items only through their keys. */
  lemma KeysIndexed(items: map<Key, nat>, h: seq<ListItem<Item>>, h': seq<ListItem<Item>>, s: seq<nat>)
    requires Indexed(items, h, s) && KeepsKeys(h, h')
    ensures Indexed(items, h', s)
    ensures KeysOf(h', s) == KeysOf(h, s)
  {
    forall k | 0 <= k < |s|
      ensures s[k] < |h'| && h'[s[k]].Value.Key == h[s[k]].Value.Key
    {
    }
    forall key | key in items
      ensures exists k :: 0 <= k < |s| && h'[s[k]].Value.Key == key
    {
      var k := Lookup(items, h, s, key);
      assert h'[s[k]].Value.Key == key;
    }
    assert Indexed(items, h', s);
    KeysOfKept(h, h', s);
  }

  lemma KeysOfKept(h: seq<ListItem<Item>>, h': seq<ListItem<Item>>, s: seq<nat>)
    requires forall k :: 0 <= k < |s| ==> s[k] < |h|
    requires KeepsKeys(h, h')
    ensures forall k :: 0 <= k < |s| ==> s[k] < |h'|
    ensures KeysOf(h', s) == KeysOf(h, s)
  {
    var keys, keys' := KeysOf(h, s), KeysOf(h', s);
    assert forall k :: 0 <= k < |s| ==> keys'[k] == keys[k];
  }
  /** Where the item at position `k` after moving position `j` of `n` to the end came from. */
  function MovedFrom(j: nat, n: nat, k: nat): nat {
    if k < j then k else if k + 1 < n then k + 1 else j
  }
  /** Where the item at position `i` goes when position `j` of `n` moves to the end. */
  function MovedTo(j: nat, n: nat, i: nat): nat
    requires n > 0
  {
    if i < j then i else if i == j then n - 1 else i - 1
  }
  /** `s` with position `j` moved to the end. */
  function MoveToEnd<X>(s: seq<X>, j: nat): seq<X>
    requires j < |s|
  {
    s[..j] + s[j + 1..] + [s[j]]
  }
  lemma Moved<X>(s: seq<X>, j: nat)
    requires j < |s|
    ensures |MoveToEnd(s, j)| == |s|
    ensures forall k :: 0 <= k < |s| ==> MovedFrom(j, |s|, k) < |s| && MoveToEnd(s, j)[k] == s[MovedFrom(j, |s|, k)]
    ensures forall i :: 0 <= i < |s| ==> MovedTo(j, |s|, i) < |s| && MoveToEnd(s, j)[MovedTo(j, |s|, i)] == s[i]
  {
  }
  /** Moving the item at position `j` to the front keeps the index. */
  lemma MoveIndexed(items: map<Key, nat>, h: seq<ListItem<Item>>, s: seq<nat>, j: nat)
    requires Indexed(items, h, s) && j < |s|
    ensures Indexed(items, h, MoveToEnd(s, j))
  {
    var s' := MoveToEnd(s, j);
    Moved(s, j);
    forall k | 0 <= k < |s'|
      ensures s'[k] < |h| && h[s'[k]].Value.Key in items && items[h[s'[k]].Value.Key] == s'[k]
    {
      assert s'[k] == s[MovedFrom(j, |s|, k)];
    }
    forall key | key in items
      ensures exists k :: 0 <= k < |s'| && h[s'[k]].Value.Key == key
    {
      var i := Lookup(items, h, s, key);
      assert s'[MovedTo(j, |s|, i)] == s[i];
    }
  }
  /** The keys after moving position `j` to the end are the keys with `j`'s moved to the end. */
  lemma KeysOfMoved(h: seq<ListItem<Item>>, s: seq<nat>, j: nat)
    requires forall k :: 0 <= k < |s| ==> s[k] < |h|
    requires j < |s|
    ensures forall k :: 0 <= k < |s| ==> MoveToEnd(s, j)[k] < |h|
    ensures var keys := KeysOf(h, s);
      KeysOf(h, MoveToEnd(s, j)) == MoveToEnd(keys, j)
  {
    Moved(s, j);
    Moved(KeysOf(h, s), j);
  }
  /** Moving the item at position `j` to the front touches its key. */
  lemma MoveKeys(items: map<Key, nat>, h: seq<ListItem<Item>>, s: seq<nat>, j: nat)
    requires Indexed(items, h, s) && Distinct(s) && j < |s|
    ensures Without(s, s[j]) + [s[j]] == MoveToEnd(s, j)
    ensures forall k :: 0 <= k < |s| ==> MoveToEnd(s, j)[k] < |h|
    ensures KeysOf(h, MoveToEnd(s, j)) == Touch(KeysOf(h, s), h[s[j]].Value.Key)
  {
    var keys := KeysOf(h, s);
    WithoutAt(s, j);
    IndexedDistinct(items, h, s);
    WithoutAt(keys, j);
    KeysOfMoved(h, s, j);
  }
  /** Dropping the back item `s[0]` and its key from the index. */
  lemma TailIndexed(items: map<Key, nat>, h: seq<ListItem<Item>>, s: seq<nat>, r: seq<nat>)
    requires Indexed(items, h, s) && |s| > 0 && |r| + 1 == |s|
    requires forall k :: 0 <= k < |r| ==> r[k] == s[k + 1] && r[k] != s[0]
    ensures s[0] < |h|
    ensures Indexed(items - {h[s[0]].Value.Key}, h, r)
    ensures KeysOf(h, r) == KeysOf(h, s)[1..]
  {
    var items' := items - {h[s[0]].Value.Key};
    TailEntries(items, h, s, r);
    TailCovers(items, h, s, r);
    KeysOfTail(h, s, r);
  }
  lemma KeysOfTail(h: seq<ListItem<Item>>, s: seq<nat>, r: seq<nat>)
    requires forall k :: 0 <= k < |s| ==> s[k] < |h|
    requires |s| > 0 && |r| + 1 == |s| && forall k :: 0 <= k < |r| ==> r[k] == s[k + 1]
    ensures forall k :: 0 <= k < |r| ==> r[k] < |h|
    ensures KeysOf(h, r) == KeysOf(h, s)[1..]
  {
    var keys, tail := KeysOf(h, r), KeysOf(h, s)[1..];
    assert forall k :: 0 <= k < |r| ==> keys[k] == tail[k];
  }
  lemma TailEntries(items: map<Key, nat>, h: seq<ListItem<Item>>, s: seq<nat>, r: seq<nat>)
    requires Indexed(items, h, s) && |s| > 0 && |r| + 1 == |s|
    requires forall k :: 0 <= k < |r| ==> r[k] == s[k + 1] && r[k] != s[0]
    ensures s[0] < |h| && |items - {h[s[0]].Value.Key}| == |r|
    ensures forall k :: 0 <= k < |r| ==>
      r[k] < |h| && h[r[k]].Value.Key in items - {h[s[0]].Value.Key} && (items - {h[s[0]].Value.Key})[h[r[k]].Value.Key] == r[k]
  {
    var items' := items - {h[s[0]].Value.Key};
    assert |items'| == |items| - 1;
    forall k | 0 <= k < |r|
      ensures h[r[k]].Value.Key in items' && items'[h[r[k]].Value.Key] == r[k]
    {
      assert items[h[s[k + 1]].Value.Key] == s[k + 1];
    }
  }
  lemma TailCovers(items: map<Key, nat>, h: seq<ListItem<Item>>, s: seq<nat>, r: seq<nat>)
    requires Indexed(items, h, s) && |s| > 0 && |r| + 1 == |s|
    requires forall k :: 0 <= k < |r| ==> r[k] == s[k + 1]
    ensures s[0] < |h|
    ensures forall key :: key in items - {h[s[0]].Value.Key} ==> exists k :: 0 <= k < |r| && h[r[k]].Value.Key == key
  {
    forall key | key in items - {h[s[0]].Value.Key}
      ensures exists k :: 0 <= k < |r| && h[r[k]].Value.Key == key
    {
      var i := Lookup(items, h, s, key);
      assert r[i - 1] == s[i];
    }
  }
  lemma KeysOfPush(h: seq<ListItem<Item>>, s: seq<nat>, e: nat)
    requires forall k :: 0 <= k < |s| ==> s[k] < |h|
    requires e < |h|
    ensures forall k :: 0 <= k < |s| + 1 ==> (s + [e])[k] < |h|
    ensures KeysOf(h, s + [e]) == KeysOf(h, s) + [h[e].Value.Key]
  {
    var keys, keys' := KeysOf(h, s + [e]), KeysOf(h, s) + [h[e].Value.Key];
    assert forall k :: 0 <= k < |s| + 1 ==> keys[k] == keys'[k];
  }
  /** In a list without repetitions, the back item occurs only at the back. */
  lemma DistinctHead(s: seq<nat>)
    requires Distinct(s) && |s| > 0
    ensures Without(s, s[0]) == s[1..]
    ensures forall k :: 0 < k < |s| ==> s[k] != s[0]
  {
    WithoutAt(s, 0);
    assert s[..0] + s[1..] == s[1..];
  }
  /** Removing the back item and its key from the index. */
  lemma EvictIndexed(items: map<Key, nat>, h: seq<ListItem<Item>>, s: seq<nat>, h': seq<ListItem<Item>>)
    requires Indexed(items, h, s) && |s| > 0 && KeepsValues(h, h')
    requires forall k :: 0 < k < |s| ==> s[k] != s[0]
    ensures s[0] < |h|
    ensures var victim := h[s[0]].Value.Key;
      && Indexed(items - {victim}, h, s[1..])
      && Indexed(items - {victim}, h', s[1..])
      && KeysOf(h', s[1..]) == KeysOf(h, s)[1..]
  {
    var r := s[1..];
    forall k | 0 <= k < |r|
      ensures r[k] == s[k + 1] && r[k] != s[0]
    {
    }
    TailIndexed(items, h, s, r);
    var items' := items - {h[s[0]].Value.Key};
    KeysIndexed(items', h, h', r);
  }

  /** Pushing a fresh item holding `key` to the front and indexing it. */
  lemma PushIndexed(items: map<Key, nat>, h: seq<ListItem<Item>>, s: seq<nat>, h': seq<ListItem<Item>>, e: nat, key: Key)
    requires Indexed(items, h, s) && key !in items
    requires KeepsKeys(h, h') && e == |h| && |h'| == e + 1 && h'[e].Value.Key == key
    ensures Indexed(items[key := e], h', s + [e])
    ensures KeysOf(h', s + [e]) == KeysOf(h, s) + [key]
  {
    KeysIndexed(items, h, h', s);
    KeysOfPush(h', s, e);
    PushEntries(items, h', s, e, key);
  }
  /** Indexing a key that is new, at an address the list does not use yet. */
  lemma PushEntries(items: map<Key, nat>, h: seq<ListItem<Item>>, s: seq<nat>, e: nat, key: Key)
    requires Indexed(items, h, s) && key !in items
    requires e < |h| && h[e].Value.Key == key && forall k :: 0 <= k < |s| ==> s[k] != e
    ensures Indexed(items[key := e], h, s + [e])
  {
    var items' := items[key := e];
    var s' := s + [e];
    assert |items'| == |items| + 1;
    forall k | 0 <= k < |s'|
      ensures s'[k] < |h| && h[s'[k]].Value.Key in items' && items'[h[s'[k]].Value.Key] == s'[k]
    {
      if k < |s| {
        assert s'[k] == s[k];
      }
    }
    forall k | k in items'
      ensures exists i :: 0 <= i < |s'| && h[s'[i]].Value.Key == k
    {
      if k == key {
        assert s'[|s|] == e;
      } else {
        var i := Lookup(items, h, s, k);
        assert s'[i] == s[i];
      }
    }
  }
}
