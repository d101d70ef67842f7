/**
 * The file-backed LRU cache of internal/cache/cache.go.
 *
 * `items` maps each key to its item in the recency queue (a `LinkedList.List`
 * whose front is the most recently touched entry), and the payload of every
 * entry lives in a file named after its key in the cache directory. The
 * directory is modelled as a map from file names to contents; each disk
 * operation takes, as a parameter, whether the operating system lets it
 * succeed.
 *
 * The abstract state of the cache is a `Store`: the keys from the least to the
 * most recently touched, the directory, and the keys whose queue item holds
 * the payload itself (what an overwrite stores) rather than the key.
 */
module DiskCache {
  import opened Wrappers
  import opened LinkedList
  import opened CacheIndex

  /** The one directory entry `drop` leaves in place. */
  const KeptFile: string := "nofile"

  datatype CacheError =
    | ReplaceFailed(key: Key)     // can't replace file
    | DeleteFailed(name: Key)     // can't delete file
    | SaveFailed(key: Key)        // can't save file
    | LoadFailed(key: Key)        // can't load file
    | ListFailed                  // can't read directory
    | RemoveFailed(name: string)  // can't remove file

  /** `Set`'s `(existed, error)`: `Replaced` is `(true, nil)`, `Added` is `(false, nil)`. */
  datatype SetResult = Added | Replaced | SetFailed(err: CacheError)

  /** `Get`'s `(value, found, error)`. */
  datatype GetResult = Miss | Hit(pic: Bytes) | GetFailed(err: CacheError)

  /** The cache directory: file name to contents. */
  type Dir = map<string, Bytes>

  datatype Store = Store(order: seq<Key>, dir: Dir, replaced: set<Key>)

  // ---------------------------------------------------------------------------
  // The cache on abstract states
  // ---------------------------------------------------------------------------

  /** What every reachable state satisfies: no key twice, at most `capacity` keys. */
  ghost predicate Sound(st: Store, capacity: int) {
    && Distinct(st.order)
    && |st.order| <= capacity
    && (forall k :: k in st.replaced ==> k in st.order)
  }

  /** Every indexed key has its file. */
  ghost predicate Coherent(st: Store) {
    forall k :: k in st.order ==> k in st.dir
  }

  /**
   * How `loadOut`'s `ioutil.WriteFile` ends. The file is opened with
   * truncation before anything is written, so a write that fails after the
   * open leaves the file holding only the bytes that made it out.
   */
  datatype FileWrite =
    | Written       // the whole payload, and no error
    | NotOpened     // the open failed: the file is as it was
    | Cut(n: nat)   // truncated, then failed after `n` bytes (a failed close counts all of them)

  /** The first `n` bytes of `b`, or all of them. */
  function Prefix(b: Bytes, n: nat): (p: Bytes)
    ensures p <= b && |p| <= n
  {
    if n < |b| then b[..n] else b
  }

  /** The directory after `loadOut(key, value)` has ended as `write` says. */
  function AfterWrite(dir: Dir, key: Key, value: Bytes, write: FileWrite): Dir {
    match write
    case Written => dir[key := value]
    case NotOpened => dir
    case Cut(n) => dir[key := Prefix(value, n)]
  }

  /** Lines 73-80: write the file, then index the key at the front. */
  function Insert(st: Store, key: Key, value: Bytes, write: FileWrite): (Store, SetResult) {
    if write.Written? then (st.(order := st.order + [key], dir := st.dir[key := value]), Added)
    else (st.(dir := AfterWrite(st.dir, key, value, write)), SetFailed(SaveFailed(key)))
  }

  /**
   * `Set(key, value)` when writing the file ends as `write` says and removing
   * the evicted file succeeds iff `removeOk`. A full cache first deletes its
   * least recently touched entry and that entry's file.
   */
  function SetSpec(st: Store, capacity: int, key: Key, value: Bytes, write: FileWrite, removeOk: bool): (Store, SetResult)
    requires capacity > 0
  {
    if key in st.order then
      if write.Written? then (Store(Touch(st.order, key), st.dir[key := value], st.replaced + {key}), Replaced)
      else (st.(dir := AfterWrite(st.dir, key, value, write)), SetFailed(ReplaceFailed(key)))
    else if |st.order| == capacity then
      var victim := st.order[0];
      if removeOk then Insert(Store(st.order[1..], st.dir - {victim}, st.replaced - {victim}), key, value, write)
      else (st, SetFailed(DeleteFailed(victim)))
    else Insert(st, key, value, write)
  }

  /** `Get(key)` when reading the file succeeds iff `readOk` and the file exists. */
  function GetSpec(st: Store, key: Key, readOk: bool): (Store, GetResult) {
    if key !in st.order then (st, Miss)
    else
      var st' := st.(order := Touch(st.order, key));
      if readOk && key in st.dir then (st', Hit(st.dir[key])) else (st', GetFailed(LoadFailed(key)))
  }

  /** The directory once `drop` has removed everything but `nofile`. */
  function Emptied(dir: Dir): Dir {
    map n | n in dir && n == KeptFile :: dir[n]
  }

  /** The state after a successful `Clear`. */
  function Cleared(st: Store): Store {
    Store([], Emptied(st.dir), {})
  }

  /** `drop` fails iff listing fails or some file other than `nofile` cannot be removed. */
  predicate DropFails(dir: Dir, listOk: bool, undeletable: set<string>) {
    !listOk || (dir.Keys - {KeptFile}) * undeletable != {}
  }

  /** What a failed `drop` leaves: some files removed, `nofile` and the undeletable ones kept. */
  ghost predicate Leftover(dir0: Dir, dir: Dir, undeletable: set<string>) {
    && (forall n :: n in dir ==> n in dir0 && dir[n] == dir0[n])
    && (forall n :: n in dir0 && (n == KeptFile || n in undeletable) ==> n in dir)
  }

  /** The files of `dir0` still present when only `names` are left to visit. */
  function Remaining(dir0: Dir, names: set<string>): Dir {
    map n | n in dir0 && (n in names || n == KeptFile) :: dir0[n]
  }

  lemma RemainingAll(dir0: Dir)
    ensures Remaining(dir0, dir0.Keys) == dir0
  {
  }

  /** Visiting `n` removes its file unless it is `nofile`. */
  lemma RemainingStep(dir0: Dir, names: set<string>, n: string)
    ensures Remaining(dir0, names - {n}) == if n == KeptFile then Remaining(dir0, names) else Remaining(dir0, names) - {n}
  {
  }

  /** Stopping before all files are visited leaves the undeletable ones in place. */
  lemma RemainingLeftover(dir0: Dir, names: set<string>, undeletable: set<string>)
    requires (dir0.Keys - names - {KeptFile}) * undeletable == {}
    ensures Leftover(dir0, Remaining(dir0, names), undeletable)
  {
    var d := Remaining(dir0, names);
    forall n | n in dir0 && (n == KeptFile || n in undeletable)
      ensures n in d
    {
      assert n !in (dir0.Keys - names - {KeptFile}) * undeletable;
    }
  }

  /** Visiting a file that is `nofile` or can be removed keeps every undeletable file unvisited. */
  lemma VisitStep(dir0: Dir, names: set<string>, undeletable: set<string>, n: string)
    requires (dir0.Keys - names - {KeptFile}) * undeletable == {}
    requires n == KeptFile || n !in undeletable
    ensures (dir0.Keys - (names - {n}) - {KeptFile}) * undeletable == {}
  {
    forall m | m in dir0.Keys - (names - {n}) - {KeptFile}
      ensures m !in undeletable
    {
      if m != n {
        assert m !in (dir0.Keys - names - {KeptFile}) * undeletable;
      }
    }
  }

  /** Every `Set` keeps the state sound: the index never exceeds `capacity`. */
  lemma SetSound(st: Store, capacity: int, key: Key, value: Bytes, write: FileWrite, removeOk: bool)
    requires capacity > 0 && Sound(st, capacity)
    ensures Sound(SetSpec(st, capacity, key, value, write, removeOk).0, capacity)
  {
    var order := st.order;
    if key in order {
      if write.Written? {
        WithoutMember(order, key);
        AppendDistinct(Without(order, key), key);
        forall k | k in st.replaced + {key}
          ensures k in Touch(order, key)
        {
          WithoutKeeps(order, key, k);
        }
      }
    } else if |order| == capacity {
      if removeOk && write.Written? {
        var rest := order[1..];
        TailDistinct(order);
        AppendDistinct(rest, key);
        forall k | k in st.replaced - {order[0]}
          ensures k in rest + [key]
        {
          var i :| 0 <= i < |order| && order[i] == k;
          assert rest[i - 1] == k;
        }
      }
    } else if write.Written? {
      AppendDistinct(order, key);
    }
  }

  /** A successful `Set` leaves every indexed key with its file. */
  lemma SetCoherent(st: Store, capacity: int, key: Key, value: Bytes, write: FileWrite, removeOk: bool)
    requires capacity > 0 && Sound(st, capacity) && Coherent(st)
    ensures Coherent(SetSpec(st, capacity, key, value, write, removeOk).0)
  {
    var order := st.order;
    if key in order && write.Written? {
      forall k | k in Touch(order, key)
        ensures k in st.dir[key := value]
      {
        WithoutKeeps(order, key, k);
      }
    } else if key !in order && |order| == capacity && removeOk && write.Written? {
      forall k | k in order[1..] + [key]
        ensures k in (st.dir - {order[0]})[key := value]
      {
        if k != key {
          var i :| 0 <= i < |order[1..]| && order[1..][i] == k;
          assert order[i + 1] == k && order[0] != k;
        }
      }
    }
  }

  /**
   * A successful `Set` on a key already present returns `Replaced`, stores the
   * new bytes and makes the key the most recent, keeping the number of keys.
   */
  lemma SetExisting(st: Store, capacity: int, key: Key, value: Bytes, removeOk: bool)
    requires capacity > 0 && Sound(st, capacity) && key in st.order
    ensures var (st', res) := SetSpec(st, capacity, key, value, Written, removeOk);
      && res == Replaced
      && |st'.order| == |st.order| && st'.order[|st'.order| - 1] == key
      && st'.dir == st.dir[key := value]
  {
    WithoutMember(st.order, key);
  }

  /**
   * A successful `Set` of a new key returns `Added` and makes it the most
   * recent key; when the cache was full, the least recently touched key and
   * its file are gone, and a later `Get` of it misses.
   */
  lemma SetNewKey(st: Store, capacity: int, key: Key, value: Bytes)
    requires capacity > 0 && Sound(st, capacity) && key !in st.order
    ensures var (st', res) := SetSpec(st, capacity, key, value, Written, true);
      && res == Added
      && st'.order == (if |st.order| == capacity then st.order[1..] else st.order) + [key]
      && st'.dir[key] == value
      && (|st.order| == capacity ==>
            var victim := st.order[0];
            && victim !in st'.order && victim !in st'.dir
            && GetSpec(st', victim, true) == (st', Miss))
  {
    if |st.order| == capacity {
      var victim := st.order[0];
      var st' := SetSpec(st, capacity, key, value, Written, true).0;
      assert victim != key;
      forall i | 0 <= i < |st.order| - 1
        ensures st.order[1..][i] != victim
      {
        assert st.order[1..][i] == st.order[i + 1];
      }
      assert victim !in st'.order;
    }
  }

  /**
   * A failed overwrite leaves the key indexed where it was, and the next `Get`
   * of it hits with whatever the failed write left in its file: the old bytes
   * when the file could not be opened, otherwise a prefix of the new ones.
   */
  lemma FailedOverwriteThenGet(st: Store, capacity: int, key: Key, value: Bytes, write: FileWrite, removeOk: bool)
    requires capacity > 0 && Sound(st, capacity) && Coherent(st) && key in st.order && !write.Written?
    ensures var (st', res) := SetSpec(st, capacity, key, value, write, removeOk);
      && res == SetFailed(ReplaceFailed(key))
      && st'.order == st.order
      && GetSpec(st', key, true).1 == Hit(if write.NotOpened? then st.dir[key] else Prefix(value, write.n))
  {
  }

  /**
   * If the payload cannot be written, a new key is not indexed. A save error
   * is reported only after any eviction the write needed has succeeded.
   */
  lemma SaveFailureNotIndexed(st: Store, capacity: int, key: Key, value: Bytes, write: FileWrite, removeOk: bool)
    requires capacity > 0 && Sound(st, capacity) && key !in st.order && !write.Written?
    ensures var (st', res) := SetSpec(st, capacity, key, value, write, removeOk);
      && key !in st'.order
      && res.SetFailed?
      && (res.err.SaveFailed? ==> |st.order| < capacity || removeOk)
  {
    if |st.order| == capacity && removeOk {
      assert st.order == [st.order[0]] + st.order[1..];
    }
  }

  /**
   * `Set` leaves every other key that it does not evict where it was: still
   * indexed, with the same file.
   */
  lemma SetKeepsOthers(st: Store, capacity: int, key: Key, value: Bytes, write: FileWrite, removeOk: bool, other: Key)
    requires capacity > 0 && Sound(st, capacity) && other in st.order && other != key
    requires |st.order| == capacity && key !in st.order ==> other != st.order[0]
    ensures var st' := SetSpec(st, capacity, key, value, write, removeOk).0;
      other in st'.order && (other in st.dir ==> other in st'.dir && st'.dir[other] == st.dir[other])
  {
    if key in st.order && write.Written? {
      WithoutKeeps(st.order, key, other);
    } else if key !in st.order && |st.order| == capacity && removeOk {
      var i :| 0 <= i < |st.order| && st.order[i] == other;
      assert st.order[1..][i - 1] == other;
    }
  }

  /** After a successful `Set`, `Get` returns exactly the bytes just stored and changes nothing. */
  lemma SetThenGet(st: Store, capacity: int, key: Key, value: Bytes, write: FileWrite, removeOk: bool)
    requires capacity > 0 && Sound(st, capacity)
    requires !SetSpec(st, capacity, key, value, write, removeOk).1.SetFailed?
    ensures var st' := SetSpec(st, capacity, key, value, write, removeOk).0;
      GetSpec(st', key, true) == (st', Hit(value))
  {
    var st' := SetSpec(st, capacity, key, value, write, removeOk).0;
    SetSound(st, capacity, key, value, write, removeOk);
    assert st'.order[|st'.order| - 1] == key;
    WithoutLast(st'.order);
  }

  /** `Get` keeps the state sound, never touches the directory, and misses exactly on absent keys. */
  lemma GetSound(st: Store, capacity: int, key: Key, readOk: bool)
    requires Sound(st, capacity)
    ensures var (st', res) := GetSpec(st, key, readOk);
      && Sound(st', capacity) && st'.dir == st.dir && st'.replaced == st.replaced
      && (res == Miss <==> key !in st.order)
      && (key !in st.order ==> st' == st)
      && (key in st.order ==> st'.order[|st'.order| - 1] == key && |st'.order| == |st.order|)
  {
    if key in st.order {
      WithoutMember(st.order, key);
      AppendDistinct(Without(st.order, key), key);
      forall k | k in st.replaced
        ensures k in Touch(st.order, key)
      {
        WithoutKeeps(st.order, key, k);
      }
    }
  }

  /** After `Clear`, every `Get` misses, and a following `Set` adds its key. */
  lemma ClearThenUse(st: Store, capacity: int, key: Key, value: Bytes, readOk: bool)
    requires capacity > 0
    ensures GetSpec(Cleared(st), key, readOk) == (Cleared(st), Miss)
    ensures SetSpec(Cleared(st), capacity, key, value, Written, true)
         == (Store([key], Emptied(st.dir)[key := value], {}), Added)
    ensures Emptied(st.dir).Keys <= {KeptFile}
  {
    assert [] + [key] == [key];
  }

  /** Filling an empty cache of capacity 3 with three new keys keeps them in insertion order. */
  lemma FillThree(a: Bytes, b: Bytes, c: Bytes)
    ensures
      var s0 := Store([], map[], {});
      var s1 := SetSpec(s0, 3, "aaa", a, Written, true).0;
      var s2 := SetSpec(s1, 3, "bbb", b, Written, true).0;
      SetSpec(s2, 3, "ccc", c, Written, true).0
        == Store(["aaa", "bbb", "ccc"], map["aaa" := a, "bbb" := b, "ccc" := c], {})
  {
    var s0 := Store([], map[], {});
    assert SetSpec(s0, 3, "aaa", a, Written, true).0 == Store(["aaa"], map["aaa" := a], {});
    assert SetSpec(Store(["aaa"], map["aaa" := a], {}), 3, "bbb", b, Written, true).0
        == Store(["aaa", "bbb"], map["aaa" := a, "bbb" := b], {});
  }

  /** Touching the middle key and then the oldest reorders them as most recently used last. */
  lemma TouchTwice(st: Store)
    requires st.order == ["aaa", "bbb", "ccc"]
    ensures GetSpec(GetSpec(st, "bbb", true).0, "aaa", true).0 == st.(order := ["ccc", "bbb", "aaa"])
  {
    assert Without(["aaa", "bbb", "ccc"], "bbb") == ["aaa", "ccc"];
    assert GetSpec(st, "bbb", true).0 == st.(order := ["aaa", "ccc", "bbb"]);
    assert Without(["aaa", "ccc", "bbb"], "aaa") == ["ccc", "bbb"];
  }

  /**
   * The "purge logic" scenario of the tests: with capacity 3, after setting
   * `aaa`, `bbb`, `ccc` and reading `bbb` then `aaa`, setting `ddd` evicts
   * `ccc`, the least recently touched.
   */
  lemma PurgeScenario(a: Bytes, b: Bytes, c: Bytes, d: Bytes)
    ensures
      var s0 := Store([], map[], {});
      var s1 := SetSpec(s0, 3, "aaa", a, Written, true).0;
      var s2 := SetSpec(s1, 3, "bbb", b, Written, true).0;
      var s3 := SetSpec(s2, 3, "ccc", c, Written, true).0;
      var s4 := GetSpec(s3, "bbb", true).0;
      var s5 := GetSpec(s4, "aaa", true).0;
      var (s6, res) := SetSpec(s5, 3, "ddd", d, Written, true);
      && res == Added
      && s6.order == ["bbb", "aaa", "ddd"]
      && GetSpec(s6, "ccc", true).1 == Miss
      && GetSpec(s6, "aaa", true).1 == Hit(a)
  {
    var s3 := Store(["aaa", "bbb", "ccc"], map["aaa" := a, "bbb" := b, "ccc" := c], {});
    FillThree(a, b, c);
    TouchTwice(s3);
    var s5 := s3.(order := ["ccc", "bbb", "aaa"]);
    assert s5.order[1..] == ["bbb", "aaa"];
    assert "ddd" !in s5.order;
    assert |s5.order| == 3 && s5.order[0] == "ccc";
    assert s5.replaced - {"ccc"} == {};
    var mid := Store(["bbb", "aaa"], s5.dir - {"ccc"}, {});
    assert SetSpec(s5, 3, "ddd", d, Written, true) == Insert(mid, "ddd", d, Written);
    assert ["bbb", "aaa"] + ["ddd"] == ["bbb", "aaa", "ddd"];
    var s6 := Store(["bbb", "aaa", "ddd"], (s5.dir - {"ccc"})["ddd" := d], {});
    assert SetSpec(s5, 3, "ddd", d, Written, true) == (s6, Added);
    assert "ccc" !in s6.order;
    assert "aaa" in s6.dir && s6.dir["aaa"] == a;
  }

  // ---------------------------------------------------------------------------
  // Set as written: the two type assertions on the eviction path
  // ---------------------------------------------------------------------------

  /** A run of `Set` that either returns or panics. */
  datatype Outcome = Done(st: Store, res: SetResult) | Panicked

  /**
   * `Set` exactly as lines 61-71 are written: the file to delete is found by
   * asserting that the evicted item's `Value` is a `Key`, which panics when an
   * overwrite has put the payload there; and a failed delete formats its
   * error with `Value.(string)`, which panics on every `Key`.
   */
  function SetAsWritten(st: Store, capacity: int, key: Key, value: Bytes, write: FileWrite, removeOk: bool): (r: Outcome)
    requires capacity > 0
    ensures key in st.order || |st.order| < capacity ==> r.Done?
    ensures r.Done? ==> (r.st, r.res) == SetSpec(st, capacity, key, value, write, removeOk)
  {
    if key !in st.order && |st.order| == capacity && (st.order[0] in st.replaced || !removeOk) then Panicked
    else
      var (st', res) := SetSpec(st, capacity, key, value, write, removeOk);
      Done(st', res)
  }

  /**
   * With capacity 1, setting `a`, setting `a` again and then setting `b`
   * panics as written; evicting by the item's key instead deletes `a`'s file
   * and adds `b`.
   */
  lemma OverwriteThenEvictPanics(p: Bytes, q: Bytes, r: Bytes)
    ensures
      var s1 := SetSpec(Store([], map[], {}), 1, "a", p, Written, true).0;
      var s2 := SetSpec(s1, 1, "a", q, Written, true).0;
      && SetAsWritten(s2, 1, "b", r, Written, true) == Panicked
      && SetSpec(s2, 1, "b", r, Written, true) == (Store(["b"], map["b" := r], {}), Added)
  {
    var s1 := Store(["a"], map["a" := p], {});
    assert SetSpec(Store([], map[], {}), 1, "a", p, Written, true).0 == s1;
    assert Without(["a"], "a") == [];
    assert [] + ["a"] == ["a"];
    assert map["a" := p]["a" := q] == map["a" := q];
    var s2 := Store(["a"], map["a" := q], {"a"});
    assert SetSpec(s1, 1, "a", q, Written, true).0 == s2;
    assert "b" !in s2.order;
    assert s2.order[0] in s2.replaced;
    assert s2.order[1..] == [];
    assert [] + ["b"] == ["b"];
    assert (map["a" := q] - {"a"})["b" := r] == map["b" := r];
  }

  /** With a full cache, a failed delete of the evicted file panics as written. */
  lemma DeleteFailurePanics(st: Store, capacity: int, key: Key, value: Bytes, write: FileWrite)
    requires capacity > 0 && |st.order| == capacity && key !in st.order
    ensures SetAsWritten(st, capacity, key, value, write, false) == Panicked
  {
  }

  /**
   * With a full cache, a failed delete of the evicted file is reported as an
   * error and changes nothing.
   */
  lemma DeleteFailureReported(st: Store, capacity: int, key: Key, value: Bytes, write: FileWrite)
    requires capacity > 0 && |st.order| == capacity && key !in st.order
    ensures SetSpec(st, capacity, key, value, write, false) == (st, SetFailed(DeleteFailed(st.order[0])))
  {
  }

  // ---------------------------------------------------------------------------
  // From the queue and the index to the abstract state
  // ---------------------------------------------------------------------------

  /** The keys whose item holds its payload rather than its key. */
  function Overwritten(items: map<Key, nat>, heap: seq<ListItem<Item>>): set<Key> {
    set key | key in items && items[key] < |heap| && heap[items[key]].Value.Value.Payload?
  }

  /** Relinking that keeps every value keeps the set of overwritten keys. */
  lemma KeepsOverwritten(items: map<Key, nat>, h: seq<ListItem<Item>>, h': seq<ListItem<Item>>, s: seq<nat>)
    requires Indexed(items, h, s) && KeepsValues(h, h')
    ensures Overwritten(items, h') == Overwritten(items, h)
  {
    forall key | key in items
      ensures items[key] < |h|
    {
      var j := Lookup(items, h, s, key);
    }
  }

  /** Removing the back item and its key from the index, overwritten keys included. */
  lemma EvictStore(items: map<Key, nat>, h: seq<ListItem<Item>>, s: seq<nat>, h': seq<ListItem<Item>>)
    requires Indexed(items, h, s) && |s| > 0 && KeepsValues(h, h')
    requires forall k :: 0 < k < |s| ==> s[k] != s[0]
    ensures s[0] < |h|
    ensures var victim := h[s[0]].Value.Key;
      && Indexed(items - {victim}, h', s[1..])
      && KeysOf(h', s[1..]) == KeysOf(h, s)[1..]
      && Overwritten(items - {victim}, h') == Overwritten(items, h) - {victim}
  {
    EvictIndexed(items, h, s, h');
    KeepsOverwritten(items - {h[s[0]].Value.Key}, h, h', s[1..]);
  }

  /** Pushing a fresh item holding `key` to the front and indexing it; a new entry is not overwritten. */
  lemma PushStore(items: map<Key, nat>, h: seq<ListItem<Item>>, s: seq<nat>, h': seq<ListItem<Item>>, e: nat, key: Key)
    requires Indexed(items, h, s) && key !in items
    requires KeepsValues(h, h') && e == |h| && |h'| == e + 1 && h'[e].Value == Item(key, FileName(key))
    ensures Indexed(items[key := e], h', s + [e])
    ensures KeysOf(h', s + [e]) == KeysOf(h, s) + [key]
    ensures Overwritten(items[key := e], h') == Overwritten(items, h)
  {
    PushIndexed(items, h, s, h', e, key);
    KeepsOverwritten(items, h, h', s);
    var o, o' := Overwritten(items, h'), Overwritten(items[key := e], h');
    assert forall k :: k in o' <==> k in o;
  }

  /** Writing the payload into `key`'s item marks `key`, and only it, as overwritten. */
  lemma WriteIndexed(items: map<Key, nat>, h: seq<ListItem<Item>>, s: seq<nat>, key: Key, pic: Bytes)
    requires Indexed(items, h, s) && key in items
    ensures items[key] < |h|
    ensures var h' := h[items[key] := h[items[key]].(Value := Item(key, Payload(pic)))];
      && Indexed(items, h', s)
      && KeysOf(h', s) == KeysOf(h, s)
      && Overwritten(items, h') == Overwritten(items, h) + {key}
  {
    var j := Lookup(items, h, s, key);
    var a := items[key];
    var h' := h[a := h[a].(Value := Item(key, Payload(pic)))];
    KeysIndexed(items, h, h', s);
    forall k | k in items && k != key
      ensures items[k] != a && items[k] < |h| && h'[items[k]] == h[items[k]]
    {
      var i := Lookup(items, h, s, k);
    }
    assert h'[a].Value.Value.Payload?;
    var o, o' := Overwritten(items, h), Overwritten(items, h');
    assert forall k :: k in o' <==> k in o || k == key;
    assert o' == o + {key};
  }

  // ---------------------------------------------------------------------------
  // The cache object
  // ---------------------------------------------------------------------------

  /** `lruCache`: the index, the recency queue and the directory it keeps files in. */
  class LruCache {
    const capacity: int
    const queue: List<Item>
    var items: map<Key, nat>
    var dir: Dir

    /** The index and the queue hold the same keys, and there are at most `capacity`. */
    ghost predicate Valid()
      reads this, queue
    {
      && capacity > 0
      && queue.Valid()
      && queue.len <= capacity
      && Indexed(items, queue.heap, queue.Items)
    }

    ghost function Model(): Store
      reads this, queue
      requires Valid()
    {
      Store(KeysOf(queue.heap, queue.Items), dir, Overwritten(items, queue.heap))
    }

    /** Every valid cache is in a sound abstract state. */
    lemma ModelSound()
      requires Valid()
      ensures Sound(Model(), capacity)
    {
      IndexedDistinct(items, queue.heap, queue.Items);
      IndexedMembers(items, queue.heap, queue.Items);
    }

    /** The index holds exactly the keys in the queue. */
    lemma ModelKeys()
      requires Valid()
      ensures forall key :: key in items <==> key in Model().order
    {
      IndexedMembers(items, queue.heap, queue.Items);
    }

    /** `NewCache`: an empty cache over the directory as it stands. */
    constructor (capacity: int, dir: Dir)
      requires capacity > 0
      ensures Valid() && fresh(queue)
      ensures this.capacity == capacity && Model() == Store([], dir, {})
    {
      this.capacity := capacity;
      this.dir := dir;
      items := map[];
      queue := new List<Item>();
    }

    /** Moves the item of `key` to the front of the queue. */
    method Promote(key: Key)
      requires Valid() && key in items
      modifies queue
      ensures Valid()
      ensures Model() == old(Model()).(order := Touch(old(Model()).order, key))
    {
      var a := items[key];
      ghost var s, h0 := queue.Items, queue.heap;
      ghost var j := Lookup(items, h0, s, key);
      MoveIndexed(items, h0, s, j);
      MoveKeys(items, h0, s, j);
      queue.MoveToFront(a);
      assert KeepsKeys(h0, queue.heap);
      KeysIndexed(items, h0, queue.heap, queue.Items);
      KeepsOverwritten(items, h0, queue.heap, queue.Items);
    }

    /** Line 57: the item of `key` now holds the payload itself. */
    method StorePayload(key: Key, value: Bytes)
      requires Valid() && key in items
      modifies queue
      ensures Valid()
      ensures Model() == old(Model()).(replaced := old(Model()).replaced + {key})
    {
      var a := items[key];
      ghost var s, h0 := queue.Items, queue.heap;
      WriteIndexed(items, h0, s, key, value);
      ValueWriteShape(h0, s, queue.Info, a, Item(key, Payload(value)));
      queue.heap := queue.heap[a := queue.heap[a].(Value := Item(key, Payload(value)))];
    }

    /** Lines 70-71: forgets the back entry, from the index and from the queue. */
    method DropBack()
      requires Valid() && queue.len > 0
      modifies this`items, queue
      ensures Valid()
      ensures var st := old(Model());
        Model() == st.(order := st.order[1..], replaced := st.replaced - {st.order[0]})
    {
      ghost var st := Model();
      var back := queue.Back();
      ghost var s, h0 := queue.Items, queue.heap;
      var k := queue.heap[back.addr].Value;
      assert k.Key == st.order[0];
      DistinctHead(s);
      items := items - {k.Key};
      queue.Remove(back.addr);
      EvictStore(old(items), h0, s, queue.heap);
      assert Model().order == st.order[1..];
      assert Model().replaced == st.replaced - {k.Key};
    }

    /** Line 80: indexes `key` in a new item at the front. */
    method Index(key: Key)
      requires Valid() && key !in items && queue.len < capacity
      modifies this`items, queue
      ensures Valid()
      ensures Model() == old(Model()).(order := old(Model()).order + [key])
    {
      ghost var s, h0 := queue.Items, queue.heap;
      var e := queue.PushFront(Item(key, FileName(key)));
      PushStore(items, h0, s, queue.heap, e, key);
      items := items[key := e];
    }

    /** `Set`: stores `value` under `key`; see `SetSpec`. */
    method Set(key: Key, value: Bytes, write: FileWrite, removeOk: bool) returns (res: SetResult)
      requires Valid()
      modifies this, queue
      ensures Valid()
      ensures (Model(), res) == SetSpec(old(Model()), capacity, key, value, write, removeOk)
    {
      ModelKeys();
      if key in items {
        res := Overwrite(key, value, write);
      } else {
        var err := MakeRoom(removeOk);
        if err.Some? {
          return SetFailed(err.value);
        }
        res := Add(key, value, write);
      }
    }

    /**
     * Lines 52-59: rewrites the file of an indexed key, stores the payload in
     * its item and touches it. A failed write returns at once, with the file
     * as the write left it.
     */
    method Overwrite(key: Key, value: Bytes, write: FileWrite) returns (res: SetResult)
      requires Valid() && key in items
      modifies this`dir, queue
      ensures Valid()
      ensures var st := old(Model());
        if write.Written? then res == Replaced && Model() == Store(Touch(st.order, key), st.dir[key := value], st.replaced + {key})
        else res == SetFailed(ReplaceFailed(key)) && Model() == st.(dir := AfterWrite(st.dir, key, value, write))
    {
      ghost var st := Model();
      // loadOut
      dir := AfterWrite(dir, key, value, write);
      if !write.Written? {
        return SetFailed(ReplaceFailed(key));
      }
      StorePayload(key, value);
      Promote(key);
      assert Model() == Store(Touch(st.order, key), st.dir[key := value], st.replaced + {key});
      return Replaced;
    }

    /** Lines 61-72: when the queue is full, deletes the back entry's file and forgets the entry. */
    method MakeRoom(removeOk: bool) returns (err: Option<CacheError>)
      requires Valid()
      modifies this`dir, this`items, queue
      ensures Valid()
      ensures var st := old(Model());
        if |st.order| < capacity then err.None? && Model() == st
        else if removeOk then err.None? && Model() == Store(st.order[1..], st.dir - {st.order[0]}, st.replaced - {st.order[0]})
        else err == Some(DeleteFailed(st.order[0])) && Model() == st
    {
      ghost var st := Model();
      if queue.Len() < capacity {
        return None;
      }
      var back := queue.Back();
      var k := queue.heap[back.addr].Value;
      assert k.Key == st.order[0];
      // remove
      if !removeOk {
        return Some(DeleteFailed(k.Key));
      }
      dir := dir - {k.Key};
      DropBack();
      return None;
    }

    /**
     * Lines 73-81: writes the file of a new key, then indexes it at the front.
     * A failed write indexes nothing, but may leave a partial file behind.
     */
    method Add(key: Key, value: Bytes, write: FileWrite) returns (res: SetResult)
      requires Valid() && key !in items && queue.len < capacity
      modifies this`dir, this`items, queue
      ensures Valid()
      ensures (Model(), res) == Insert(old(Model()), key, value, write)
    {
      ghost var st := Model();
      // loadOut
      dir := AfterWrite(dir, key, value, write);
      if !write.Written? {
        return SetFailed(SaveFailed(key));
      }
      Index(key);
      assert Model() == st.(order := st.order + [key], dir := st.dir[key := value]);
      return Added;
    }

    /** `Get`: looks `key` up and reads its file; see `GetSpec`. */
    method Get(key: Key, readOk: bool) returns (res: GetResult)
      requires Valid()
      modifies queue
      ensures Valid()
      ensures (Model(), res) == GetSpec(old(Model()), key, readOk)
    {
      ModelKeys();
      if key !in items {
        return Miss;
      }
      Promote(key);
      var a := items[key];
      ghost var j := Lookup(items, queue.heap, queue.Items, key);
      var entry := queue.heap[a].Value;
      // loadIn
      if !readOk || entry.Key !in dir {
        return GetFailed(LoadFailed(entry.Key));
      }
      return Hit(dir[entry.Key]);
    }

    /**
     * `drop`: lists the directory and removes every file but `nofile`,
     * stopping at the first that cannot be removed.
     */
    method Drop(listOk: bool, undeletable: set<string>) returns (err: Option<CacheError>)
      modifies this`dir
      ensures err.None? <==> !DropFails(old(dir), listOk, undeletable)
      ensures err.None? ==> dir == Emptied(old(dir))
      ensures err.Some? ==> Leftover(old(dir), dir, undeletable)
    {
      if !listOk {
        return Some(ListFailed);
      }
      ghost var d0 := dir;
      var names := dir.Keys;
      RemainingAll(d0);
      while names != {}
        invariant names <= d0.Keys
        invariant dir == Remaining(d0, names)
        invariant (d0.Keys - names - {KeptFile}) * undeletable == {}
        decreases |names|
      {
        var n :| n in names;
        if n != KeptFile {
          if n in undeletable {
            assert n in (d0.Keys - {KeptFile}) * undeletable;
            RemainingLeftover(d0, names, undeletable);
            return Some(RemoveFailed(n));
          }
          dir := dir - {n};
        }
        RemainingStep(d0, names, n);
        VisitStep(d0, names, undeletable, n);
        names := names - {n};
      }
      assert d0.Keys - {KeptFile} == d0.Keys - names - {KeptFile};
      assert Remaining(d0, {}) == Emptied(d0);
      return None;
    }

    /** `Clear`: empties the directory but for `nofile`, then the index and the queue. */
    method Clear(listOk: bool, undeletable: set<string>) returns (err: Option<CacheError>)
      requires Valid()
      modifies this, queue
      ensures Valid()
      ensures err.None? <==> !DropFails(old(dir), listOk, undeletable)
      ensures err.None? ==> Model() == Cleared(old(Model()))
      ensures err.Some? ==> Model().order == old(Model().order) && Model().replaced == old(Model().replaced)
      ensures err.Some? ==> Leftover(old(dir), dir, undeletable)
    {
      err := Drop(listOk, undeletable);
      if err.Some? {
        return;
      }
      Reset();
    }

    /** Lines 109-111: drops the index and empties the queue in place. */
    method Reset()
      requires Valid()
      modifies this`items, queue
      ensures Valid()
      ensures Model() == Store([], dir, {})
    {
      items := map[];
      queue.len := 0;
      queue.Info := Links(Nil, Nil);
      queue.Items := [];
    }
  }
}
