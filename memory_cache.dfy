/**
 * The in-memory LRU cache of previewer/cache/cache.go.
 *
 * `items` maps each key to its item in the recency queue, and the item holds
 * the key and the stored value. The abstract state of the cache is a `Store`:
 * the keys from the least to the most recently touched, and the value stored
 * under each of them. The previewer only ever stores encoded images, so the
 * values are byte strings, kept in the item as a `Payload`.
 *
 * `Clear` sets the index map to nil. Reading a nil map in Go behaves like
 * reading an empty one, but writing to it panics; `live` records whether the
 * map is non-nil.
 */
module MemoryCache {
  import opened Wrappers
  import opened LinkedList
  import opened CacheIndex

  datatype Store = Store(order: seq<Key>, values: map<Key, Bytes>)

  // ---------------------------------------------------------------------------
  // The cache on abstract states
  // ---------------------------------------------------------------------------

  /** What every reachable state satisfies: no key twice, at most `capacity` keys, a value for each. */
  ghost predicate Sound(st: Store, capacity: int) {
    && Distinct(st.order)
    && |st.order| <= capacity
    && (forall k :: k in st.values <==> k in st.order)
  }

  /**
   * `Set(key, value)`: an indexed key gets the new value and becomes the most
   * recent (`true`); otherwise a full cache first forgets its least recently
   * touched key, and the new key is added as the most recent (`false`).
   */
  function SetSpec(st: Store, capacity: int, key: Key, value: Bytes): (Store, bool) {
    if key in st.order then (Store(Touch(st.order, key), st.values[key := value]), true)
    else if |st.order| == capacity && capacity > 0 then
      var victim := st.order[0];
      (Store(st.order[1..] + [key], (st.values - {victim})[key := value]), false)
    else (Store(st.order + [key], st.values[key := value]), false)
  }

  /** `Get(key)`: the value of an indexed key, which becomes the most recent; `None` otherwise. */
  function GetSpec(st: Store, key: Key): (Store, Option<Bytes>) {
    if key !in st.order || key !in st.values then (st, None)
    else (st.(order := Touch(st.order, key)), Some(st.values[key]))
  }

  /** The state after `Clear`. */
  function Cleared(): Store {
    Store([], map[])
  }

  lemma SetSound(st: Store, capacity: int, key: Key, value: Bytes)
    requires capacity > 0 && Sound(st, capacity)
    ensures Sound(SetSpec(st, capacity, key, value).0, capacity)
  {
    var order := st.order;
    var st' := SetSpec(st, capacity, key, value).0;
    if key in order {
      WithoutMember(order, key);
      AppendDistinct(Without(order, key), key);
      forall k
        ensures k in st'.values <==> k in st'.order
      {
        WithoutKeeps(order, key, k);
      }
    } else if |order| == capacity {
      var rest := order[1..];
      TailDistinct(order);
      AppendDistinct(rest, key);
      forall k
        ensures k in st'.values <==> k in st'.order
      {
        if k != key && k != order[0] && k in order {
          var i :| 0 <= i < |order| && order[i] == k;
          assert rest[i - 1] == k;
        }
        if k in rest {
          var i :| 0 <= i < |rest| && rest[i] == k;
          assert order[i + 1] == k;
        }
      }
    } else {
      AppendDistinct(order, key);
    }
  }

  /**
   * `Set` on a key already present returns `true`, stores the new value and
   * makes the key the most recent, keeping the number of keys.
   */
  lemma SetExisting(st: Store, capacity: int, key: Key, value: Bytes)
    requires capacity > 0 && Sound(st, capacity) && key in st.order
    ensures var (st', existed) := SetSpec(st, capacity, key, value);
      && existed
      && |st'.order| == |st.order| && st'.order[|st'.order| - 1] == key
      && st'.values == st.values[key := value]
  {
    WithoutMember(st.order, key);
  }

  /**
   * `Set` of a new key returns `false` and makes it the most recent key; when
   * the cache was full, the least recently touched key is gone from the order
   * and the values, and a later `Get` of it misses.
   */
  lemma SetNewKey(st: Store, capacity: int, key: Key, value: Bytes)
    requires capacity > 0 && Sound(st, capacity) && key !in st.order
    ensures var (st', existed) := SetSpec(st, capacity, key, value);
      && !existed
      && st'.order == (if |st.order| == capacity then st.order[1..] else st.order) + [key]
      && st'.values[key] == value
      && (|st.order| == capacity ==>
            var victim := st.order[0];
            && victim !in st'.order && victim !in st'.values
            && GetSpec(st', victim) == (st', None))
  {
    if |st.order| == capacity {
      var victim := st.order[0];
      var st' := SetSpec(st, capacity, key, value).0;
      assert victim != key;
      forall i | 0 <= i < |st.order| - 1
        ensures st.order[1..][i] != victim
      {
        assert st.order[1..][i] == st.order[i + 1];
      }
      assert victim !in st'.order;
    }
  }

  /** `Set` leaves every other key that it does not evict where it was, with the same value. */
  lemma SetKeepsOthers(st: Store, capacity: int, key: Key, value: Bytes, other: Key)
    requires capacity > 0 && Sound(st, capacity) && other in st.order && other != key
    requires |st.order| == capacity && key !in st.order ==> other != st.order[0]
    ensures var st' := SetSpec(st, capacity, key, value).0;
      other in st'.order && other in st'.values && st'.values[other] == st.values[other]
  {
    if key in st.order {
      WithoutKeeps(st.order, key, other);
    } else if |st.order| == capacity {
      var i :| 0 <= i < |st.order| && st.order[i] == other;
      assert st.order[1..][i - 1] == other;
    }
  }

  /** After `Set`, `Get` returns exactly the value just stored and changes nothing. */
  lemma SetThenGet(st: Store, capacity: int, key: Key, value: Bytes)
    requires capacity > 0 && Sound(st, capacity)
    ensures var st' := SetSpec(st, capacity, key, value).0;
      GetSpec(st', key) == (st', Some(value))
  {
    var st' := SetSpec(st, capacity, key, value).0;
    SetSound(st, capacity, key, value);
    assert st'.order[|st'.order| - 1] == key;
    WithoutLast(st'.order);
  }

  /** `Get` keeps the state sound, never changes a value, and misses exactly on absent keys. */
  lemma GetSound(st: Store, capacity: int, key: Key)
    requires Sound(st, capacity)
    ensures var (st', res) := GetSpec(st, key);
      && Sound(st', capacity) && st'.values == st.values
      && (res.None? <==> key !in st.order)
      && (key !in st.order ==> st' == st)
      && (key in st.order ==> res == Some(st.values[key]) && st'.order[|st'.order| - 1] == key && |st'.order| == |st.order|)
  {
    if key in st.order {
      WithoutMember(st.order, key);
      AppendDistinct(Without(st.order, key), key);
      forall k
        ensures k in st.values <==> k in Touch(st.order, key)
      {
        WithoutKeeps(st.order, key, k);
      }
    }
  }

  /** After `Clear`, the cache is empty and every `Get` misses. */
  lemma ClearThenGet(capacity: int, key: Key)
    requires capacity > 0
    ensures Sound(Cleared(), capacity)
    ensures GetSpec(Cleared(), key) == (Cleared(), None)
  {
  }

  // ---------------------------------------------------------------------------
  // Set as written: the write into a nil map after Clear
  // ---------------------------------------------------------------------------

  /** A run of `Set` that either returns or panics. */
  datatype Outcome = Done(st: Store, existed: bool) | Panicked

  /**
   * `Set` as written: for a key that is not indexed, line 55 assigns into
   * `items`, which panics while `Clear` has left the map nil (`live` false).
   */
  function SetAsWritten(st: Store, live: bool, capacity: int, key: Key, value: Bytes): (r: Outcome)
    ensures live || key in st.order ==> r.Done?
    ensures r.Done? ==> (r.st, r.existed) == SetSpec(st, capacity, key, value)
  {
    if key !in st.order && !live then Panicked
    else
      var (st', existed) := SetSpec(st, capacity, key, value);
      Done(st', existed)
  }

  /** As written, every `Set` after `Clear` panics. */
  lemma ClearThenSetPanics(capacity: int, key: Key, value: Bytes)
    ensures SetAsWritten(Cleared(), false, capacity, key, value) == Panicked
  {
  }

  /**
   * With the index map re-created before it is written (as the file-backed
   * cache does at internal/cache/cache.go:77-79), `Set` after `Clear` adds the
   * key and `Get` then finds it.
   */
  lemma ClearThenSet(capacity: int, key: Key, value: Bytes)
    requires capacity > 0
    ensures SetSpec(Cleared(), capacity, key, value) == (Store([key], map[key := value]), false)
    ensures GetSpec(Store([key], map[key := value]), key) == (Store([key], map[key := value]), Some(value))
  {
    assert [] + [key] == [key];
    assert Without([key], key) == [];
  }

  // ---------------------------------------------------------------------------
  // From the queue and the index to the abstract state
  // ---------------------------------------------------------------------------

  /** The value held in an item (the in-memory cache stores only payloads). */
  function ValueOf(s: Stored): Bytes {
    match s
    case Payload(pic) => pic
    case FileName(_) => []
  }

  /** The value stored under each indexed key. */
  function Contents(items: map<Key, nat>, heap: seq<ListItem<Item>>): map<Key, Bytes> {
    map key | key in items && items[key] < |heap| :: ValueOf(heap[items[key]].Value.Value)
  }

  /** The contents have exactly the indexed keys. */
  lemma ContentsKeys(items: map<Key, nat>, heap: seq<ListItem<Item>>, addrs: seq<nat>)
    requires Indexed(items, heap, addrs)
    ensures forall key :: key in Contents(items, heap) <==> key in items
  {
    forall key | key in items
      ensures items[key] < |heap|
    {
      var j := Lookup(items, heap, addrs, key);
    }
  }

  /** Relinking that keeps every value keeps the contents. */
  lemma KeepsContents(items: map<Key, nat>, h: seq<ListItem<Item>>, h': seq<ListItem<Item>>, s: seq<nat>)
    requires Indexed(items, h, s) && KeepsValues(h, h')
    ensures Contents(items, h') == Contents(items, h)
  {
    forall key | key in items
      ensures items[key] < |h|
    {
      var j := Lookup(items, h, s, key);
    }
  }

  /** Writing a new value into `key`'s item changes the contents at `key` only. */
  lemma WriteContents(items: map<Key, nat>, h: seq<ListItem<Item>>, s: seq<nat>, key: Key, value: Bytes)
    requires Indexed(items, h, s) && key in items
    ensures items[key] < |h|
    ensures var h' := h[items[key] := h[items[key]].(Value := Item(key, Payload(value)))];
      && Indexed(items, h', s)
      && KeysOf(h', s) == KeysOf(h, s)
      && Contents(items, h') == Contents(items, h)[key := value]
  {
    var j := Lookup(items, h, s, key);
    var a := items[key];
    var h' := h[a := h[a].(Value := Item(key, Payload(value)))];
    KeysIndexed(items, h, h', s);
    forall k | k in items && k != key
      ensures items[k] != a && items[k] < |h| && h'[items[k]] == h[items[k]]
    {
      var i := Lookup(items, h, s, k);
    }
    ContentsWrite(items, h, h', key, value);
  }

  lemma ContentsWrite(items: map<Key, nat>, h: seq<ListItem<Item>>, h': seq<ListItem<Item>>, key: Key, value: Bytes)
    requires key in items && items[key] < |h| == |h'| && h'[items[key]].Value.Value == Payload(value)
    requires forall k :: k in items && k != key ==> items[k] < |h| && h'[items[k]] == h[items[k]]
    ensures Contents(items, h') == Contents(items, h)[key := value]
  {
    var c, c' := Contents(items, h), Contents(items, h');
    assert forall k :: k in c' <==> k in c;
  }

  /** Removing the back item and its key from the index removes its value from the contents. */
  lemma EvictContents(items: map<Key, nat>, h: seq<ListItem<Item>>, s: seq<nat>, h': seq<ListItem<Item>>)
    requires Indexed(items, h, s) && |s| > 0 && KeepsValues(h, h')
    requires forall k :: 0 < k < |s| ==> s[k] != s[0]
    ensures s[0] < |h|
    ensures var victim := h[s[0]].Value.Key;
      && Indexed(items - {victim}, h', s[1..])
      && KeysOf(h', s[1..]) == KeysOf(h, s)[1..]
      && Contents(items - {victim}, h') == Contents(items, h) - {victim}
  {
    EvictIndexed(items, h, s, h');
    var victim := h[s[0]].Value.Key;
    KeepsContents(items - {victim}, h, h', s[1..]);
    ContentsMinus(items, h, victim);
  }

  lemma ContentsMinus(items: map<Key, nat>, h: seq<ListItem<Item>>, victim: Key)
    ensures Contents(items - {victim}, h) == Contents(items, h) - {victim}
  {
    var c, c' := Contents(items, h), Contents(items - {victim}, h);
    assert forall k :: k in c' <==> k in c && k != victim;
  }

  /** Pushing a fresh item holding `key` and `value` to the front and indexing it. */
  lemma PushContents(items: map<Key, nat>, h: seq<ListItem<Item>>, s: seq<nat>, h': seq<ListItem<Item>>, e: nat, key: Key, value: Bytes)
    requires Indexed(items, h, s) && key !in items
    requires KeepsValues(h, h') && e == |h| && |h'| == e + 1 && h'[e].Value == Item(key, Payload(value))
    ensures Indexed(items[key := e], h', s + [e])
    ensures KeysOf(h', s + [e]) == KeysOf(h, s) + [key]
    ensures Contents(items[key := e], h') == Contents(items, h)[key := value]
  {
    PushIndexed(items, h, s, h', e, key);
    KeepsContents(items, h, h', s);
    ContentsPush(items, h', e, key, value);
  }

  lemma ContentsPush(items: map<Key, nat>, h: seq<ListItem<Item>>, e: nat, key: Key, value: Bytes)
    requires e < |h| && h[e].Value.Value == Payload(value)
    ensures Contents(items[key := e], h) == Contents(items, h)[key := value]
  {
    var c, c' := Contents(items, h), Contents(items[key := e], h);
    assert forall k :: k in c' <==> k in c || k == key;
  }

  // ---------------------------------------------------------------------------
  // The cache object
  // ---------------------------------------------------------------------------

  /** `lruCache`: the index and the recency queue. */
  class LruCache {
    const capacity: int
    const queue: List<Item>
    var items: map<Key, nat>
    /** Whether `items` is a non-nil map. */
    var live: bool

    ghost predicate Valid()
      reads this, queue
    {
      && capacity > 0
      && queue.Valid()
      && queue.len <= capacity
      && Indexed(items, queue.heap, queue.Items)
    }

    ghost function Model(): Store
      reads this, queue
      requires Valid()
    {
      Store(KeysOf(queue.heap, queue.Items), Contents(items, queue.heap))
    }

    /** Every valid cache is in a sound abstract state. */
    lemma ModelSound()
      requires Valid()
      ensures Sound(Model(), capacity)
    {
      IndexedDistinct(items, queue.heap, queue.Items);
      IndexedMembers(items, queue.heap, queue.Items);
      ContentsKeys(items, queue.heap, queue.Items);
    }

    /** The index holds exactly the keys in the queue, each with a value. */
    lemma ModelKeys()
      requires Valid()
      ensures forall key :: key in items <==> key in Model().order
      ensures forall key :: key in items <==> key in Model().values
    {
      IndexedMembers(items, queue.heap, queue.Items);
      ContentsKeys(items, queue.heap, queue.Items);
    }

    /** `NewCache`: an empty cache. */
    constructor (capacity: int)
      requires capacity > 0
      ensures Valid() && fresh(queue) && live
      ensures this.capacity == capacity && Model() == Store([], map[])
    {
      this.capacity := capacity;
      items := map[];
      live := true;
      queue := new List<Item>();
    }

    /** `Set`: stores `value` under `key`; see `SetSpec`. */
    method Set(key: Key, value: Bytes) returns (existed: bool)
      requires Valid() && live
      modifies this`items, queue
      ensures Valid() && live
      ensures (Model(), existed) == SetSpec(old(Model()), capacity, key, value)
    {
      ModelKeys();
      ghost var st := Model();
      if key in items {
        Replace(key, value);
        return true;
      }
      assert key !in st.order;
      Add(key, value);
      assert !SetSpec(st, capacity, key, value).1;
      return false;
    }

    /** Lines 44-57: a new key, after room is made for it. */
    method Add(key: Key, value: Bytes)
      requires Valid() && live && key !in items && key !in Model().order
      modifies this`items, queue
      ensures Valid()
      ensures Model() == SetSpec(old(Model()), capacity, key, value).0
    {
      ghost var st := Model();
      MakeRoom();
      ghost var mid := Model();
      Index(key, value);
      assert Model() == Store(mid.order + [key], mid.values[key := value]);
    }

    /** Lines 44-53: a full queue forgets its back entry. */
    method MakeRoom()
      requires Valid()
      modifies this`items, queue
      ensures Valid() && queue.len < capacity && items.Keys <= old(items).Keys
      ensures var st := old(Model());
        Model() == if |st.order| == capacity then Store(st.order[1..], st.values - {st.order[0]}) else st
    {
      if queue.Len() == capacity {
        DropBack();
      }
    }

    /** Lines 37-42: the item of an indexed key gets the new value and moves to the front. */
    method Replace(key: Key, value: Bytes)
      requires Valid() && key in items && key in Model().order
      modifies queue
      ensures Valid()
      ensures (Model(), true) == SetSpec(old(Model()), capacity, key, value)
    {
      StoreValue(key, value);
      Promote(key);
    }

    /** Line 39: the item of `key` now holds `value`. */
    method StoreValue(key: Key, value: Bytes)
      requires Valid() && key in items
      modifies queue
      ensures Valid()
      ensures Model() == old(Model()).(values := old(Model()).values[key := value])
    {
      var a := items[key];
      ghost var s, h0 := queue.Items, queue.heap;
      WriteContents(items, h0, s, key, value);
      ValueWriteShape(h0, s, queue.Info, a, Item(key, Payload(value)));
      queue.heap := queue.heap[a := queue.heap[a].(Value := Item(key, Payload(value)))];
    }

    /** Moves the item of `key` to the front of the queue. */
    method Promote(key: Key)
      requires Valid() && key in items
      modifies queue
      ensures Valid()
      ensures Model() == old(Model()).(order := Touch(old(Model()).order, key))
    {
      var a := items[key];
      ghost var s, h0 := queue.Items, queue.heap;
      ghost var j := Lookup(items, h0, s, key);
      MoveIndexed(items, h0, s, j);
      MoveKeys(items, h0, s, j);
      queue.MoveToFront(a);
      assert KeepsKeys(h0, queue.heap);
      KeysIndexed(items, h0, queue.heap, queue.Items);
      KeepsContents(items, h0, queue.heap, queue.Items);
    }

    /** Lines 46-51: forgets the back entry, from the index and from the queue. */
    method DropBack()
      requires Valid() && queue.len > 0
      modifies this`items, queue
      ensures Valid()
      ensures var st := old(Model());
        Model() == Store(st.order[1..], st.values - {st.order[0]})
    {
      ghost var st := Model();
      var back := queue.Back();
      ghost var s, h0 := queue.Items, queue.heap;
      var k := queue.heap[back.addr].Value;
      assert k.Key == st.order[0];
      DistinctHead(s);
      items := items - {k.Key};
      queue.Remove(back.addr);
      EvictContents(old(items), h0, s, queue.heap);
      assert Model().order == st.order[1..];
      assert Model().values == st.values - {k.Key};
    }

    /** Line 55: indexes `key` in a new item at the front. */
    method Index(key: Key, value: Bytes)
      requires Valid() && live && key !in items && queue.len < capacity
      modifies this`items, queue
      ensures Valid()
      ensures Model() == Store(old(Model()).order + [key], old(Model()).values[key := value])
    {
      ghost var s, h0 := queue.Items, queue.heap;
      var e := queue.PushFront(Item(key, Payload(value)));
      PushContents(items, h0, s, queue.heap, e, key, value);
      items := items[key := e];
    }

    /** `Get`: looks `key` up; see `GetSpec`. */
    method Get(key: Key) returns (res: Option<Bytes>)
      requires Valid()
      modifies queue
      ensures Valid()
      ensures (Model(), res) == GetSpec(old(Model()), key)
    {
      ModelKeys();
      if key !in items {
        return None;
      }
      Promote(key);
      var a := items[key];
      ghost var j := Lookup(items, queue.heap, queue.Items, key);
      return Some(ValueOf(queue.heap[a].Value.Value));
    }

    /** `Clear`: drops the index map (leaving it nil) and empties the queue in place. */
    method Clear()
      requires Valid()
      modifies this`items, this`live, queue
      ensures Valid() && !live
      ensures Model() == Cleared()
    {
      items := map[];
      live := false;
      queue.len := 0;
      queue.Info := Links(Nil, Nil);
      queue.Items := [];
    }
  }
}
