/**
 * The in-memory store with per-entry expiry and least-recently-used
 * eviction that backs the repo cache and the job tables. The lock around
 * each method makes every call one atomic transition; the clock reading is
 * the explicit `now` parameter (whole seconds).
 */
module TtlStore {
  import opened Wrappers
  import opened Seqs

  type Key = string

  /**
   * `data` holds the values, `expires` the expiry instant of each entry and
   * `order` the keys from least to most recently used. `maxSize` 0 (or
   * less) means unbounded.
   */
  datatype Store<V> = Store(data: map<Key, V>, expires: map<Key, int>, order: seq<Key>,
                            defaultTtl: int, maxSize: int)

  /** The process-wide repo cache: two hours, at most 20 entries. */
  const ReposTtl := 7200
  const ReposMaxSize := 20

  function New<V>(defaultTtl: int, maxSize: int): (s: Store<V>)
    ensures Valid(s) && Size(s) == 0
    ensures s.defaultTtl == defaultTtl && s.maxSize == maxSize
  {
    Store(map[], map[], [], defaultTtl, maxSize)
  }

  /** What every store reachable through the public methods satisfies. */
  predicate Valid<V>(s: Store<V>) {
    && s.data.Keys == s.expires.Keys
    && Distinct(s.order)
    && (forall k :: k in s.order ==> k in s.data)
    && (forall k :: k in s.data ==> k in s.order)
  }

  /** An entry a read at `now` still returns. */
  predicate Live<V>(s: Store<V>, key: Key, now: int) {
    key in s.data && (key !in s.expires || s.expires[key] > now)
  }

  /** `ttl or default_ttl`: an absent or zero ttl falls back to the default. */
  function EffectiveTtl<V>(s: Store<V>, ttl: Option<int>): (t: int)
    ensures ttl.Some? && ttl.value != 0 ==> t == ttl.value
    ensures ttl.None? || ttl.value == 0 ==> t == s.defaultTtl
  {
    match ttl
    case Some(t) => if t != 0 then t else s.defaultTtl
    case None => s.defaultTtl
  }

  /**
   * `get`: a live entry is returned and becomes the most recently used; an
   * expired one is dropped on the spot; a missing key leaves the store alone.
   */
  function Get<V>(s: Store<V>, key: Key, now: int): (r: (Store<V>, Option<V>))
    ensures r.1.Some? <==> Live(s, key, now)
    ensures r.1.Some? ==> r.1.value == s.data[key]
    ensures r.1.Some? ==> r.0.data == s.data && r.0.expires == s.expires
    ensures r.1.Some? ==> |r.0.order| > 0 && r.0.order[|r.0.order| - 1] == key
    ensures r.1.None? ==> key !in r.0.data && r.0.data == s.data - {key}
    ensures key !in s.data ==> r.0 == s
    ensures r.0.defaultTtl == s.defaultTtl && r.0.maxSize == s.maxSize
  {
    if key in s.data then
      if key !in s.expires || s.expires[key] > now then
        (s.(order := RemoveFirst(s.order, key) + [key]), Some(s.data[key]))
      else
        (s.(data := s.data - {key}, expires := s.expires - {key}, order := RemoveFirst(s.order, key)), None)
    else
      (s, None)
  }

  /** `__contains__`: a key is in the store when a read returns it. */
  function Contains<V>(s: Store<V>, key: Key, now: int): (r: (Store<V>, bool))
    ensures r.1 <==> Live(s, key, now)
    ensures r.0 == Get(s, key, now).0
  {
    var (s', v) := Get(s, key, now);
    (s', v.Some?)
  }

  /** The store after making room for a new key in a full bounded store. */
  function Evict<V>(s: Store<V>, key: Key): (r: Store<V>)
  {
    if s.maxSize > 0 && key !in s.data && |s.data| >= s.maxSize && |s.order| > 0 then
      var victim := s.order[0];
      s.(data := s.data - {victim}, expires := s.expires - {victim}, order := s.order[1..])
    else s
  }

  /**
   * `set`: a new key entering a full bounded store first pushes out the
   * least recently used entry; the key then holds `value`, expires `ttl`
   * seconds (or the default) from now and becomes the most recently used.
   */
  function Set<V>(s: Store<V>, key: Key, value: V, ttl: Option<int>, now: int): (r: Store<V>)
    ensures key in r.data && r.data[key] == value
    ensures key in r.expires && r.expires[key] == now + EffectiveTtl(s, ttl)
    ensures |r.order| > 0 && r.order[|r.order| - 1] == key
    ensures r.defaultTtl == s.defaultTtl && r.maxSize == s.maxSize
    ensures !(s.maxSize > 0 && key !in s.data && |s.data| >= s.maxSize && |s.order| > 0) ==>
      r.data == s.data[key := value]
    ensures s.maxSize > 0 && key !in s.data && |s.data| >= s.maxSize && |s.order| > 0 ==>
      r.data == (s.data - {s.order[0]})[key := value]
  {
    var e := Evict(s, key);
    e.(data := e.data[key := value],
       expires := e.expires[key := now + EffectiveTtl(s, ttl)],
       order := RemoveFirst(e.order, key) + [key])
  }

  /** `delete`: the key is gone, whether or not it was there. */
  function Delete<V>(s: Store<V>, key: Key): (r: Store<V>)
    ensures r.data == s.data - {key} && r.expires == s.expires - {key}
    ensures forall k :: k != key ==> (k in r.order <==> k in s.order)
  {
    s.(data := s.data - {key}, expires := s.expires - {key}, order := RemoveFirst(s.order, key))
  }

  predicate Expired<V>(s: Store<V>, now: int, k: Key) {
    k in s.expires && s.expires[k] <= now
  }

  /** The keys a cleanup at `now` keeps in the access order. */
  function Survives<V>(s: Store<V>, now: int): Key -> bool {
    k => !Expired(s, now, k)
  }

  /**
   * `cleanup`: every entry whose expiry has passed is removed, and the
   * number removed is returned; `list.remove` keeps the survivors in their
   * order of use.
   */
  function Cleanup<V>(s: Store<V>, now: int): (r: (Store<V>, nat))
    ensures forall k :: k in r.0.data <==> k in s.data && !Expired(s, now, k)
    ensures forall k :: k in r.0.data ==> r.0.data[k] == s.data[k]
    ensures forall k :: k in r.0.expires ==> !Expired(s, now, k)
    ensures r.0.order == Filter(s.order, Survives(s, now))
    ensures r.1 == |set k | k in s.expires && s.expires[k] <= now|
  {
    var gone := Gone(s, now);
    var s' := s.(data := map k | k in s.data && k !in gone :: s.data[k],
                 expires := map k | k in s.expires && k !in gone :: s.expires[k],
                 order := Filter(s.order, Survives(s, now)));
    (s', |gone|)
  }

  /** The keys whose expiry has passed at `now`. */
  function Gone<V>(s: Store<V>, now: int): set<Key> {
    set k | k in s.expires && s.expires[k] <= now
  }

  /** `size`: the number of stored entries, expired ones included until something drops them. */
  function Size<V>(s: Store<V>): nat {
    |s.data|
  }

  // ---------------------------------------------------------------------
  // Properties
  // ---------------------------------------------------------------------

  lemma GetKeepsValid<V>(s: Store<V>, key: Key, now: int)
    requires Valid(s)
    ensures Valid(Get(s, key, now).0)
  {
    RemoveFirstSpec(s.order, key);
    if Live(s, key, now) {
      AppendFresh(RemoveFirst(s.order, key), key);
    }
  }

  lemma EvictKeepsValid<V>(s: Store<V>, key: Key)
    requires Valid(s)
    ensures Valid(Evict(s, key))
  {
    if Evict(s, key) != s {
      RemoveFirstSpec(s.order, s.order[0]);
      assert RemoveFirst(s.order, s.order[0]) == s.order[1..];
    }
  }

  lemma SetKeepsValid<V>(s: Store<V>, key: Key, value: V, ttl: Option<int>, now: int)
    requires Valid(s)
    ensures Valid(Set(s, key, value, ttl, now))
  {
    var e := Evict(s, key);
    EvictKeepsValid(s, key);
    RemoveFirstSpec(e.order, key);
    AppendFresh(RemoveFirst(e.order, key), key);
  }

  lemma DeleteKeepsValid<V>(s: Store<V>, key: Key)
    requires Valid(s)
    ensures Valid(Delete(s, key))
  {
    RemoveFirstSpec(s.order, key);
  }

  lemma CleanupKeepsValid<V>(s: Store<V>, now: int)
    requires Valid(s)
    ensures Valid(Cleanup(s, now).0)
  {
    FilterDistinct(s.order, Survives(s, now));
  }

  /** The order list holds one entry per stored key. */
  lemma OrderMatchesSize<V>(s: Store<V>)
    requires Valid(s)
    ensures |s.order| == Size(s)
  {
    DistinctCard(s.order, s.data.Keys);
  }

  /**
   * A value written at `now` reads back until its expiry instant and not
   * from then on.
   */
  lemma SetThenGet<V>(s: Store<V>, key: Key, value: V, ttl: Option<int>, now: int, later: int)
    requires Valid(s)
    ensures var s1 := Set(s, key, value, ttl, now);
      Get(s1, key, later).1 == (if later < now + EffectiveTtl(s, ttl) then Some(value) else None)
  {
  }

  /** A bounded store never holds more than its bound. */
  lemma SetRespectsBound<V>(s: Store<V>, key: Key, value: V, ttl: Option<int>, now: int)
    requires Valid(s) && s.maxSize > 0 && Size(s) <= s.maxSize
    ensures Size(Set(s, key, value, ttl, now)) <= s.maxSize
  {
    OrderMatchesSize(s);
    if key !in s.data && |s.data| >= s.maxSize {
      assert s.order[0] in s.data;
      assert (s.data - {s.order[0]}).Keys == s.data.Keys - {s.order[0]};
    }
  }

  /**
   * A new key entering a full store evicts exactly the least recently used
   * entry; every other entry stays.
   */
  lemma EvictsLeastRecent<V>(s: Store<V>, key: Key, value: V, ttl: Option<int>, now: int)
    requires Valid(s) && s.maxSize > 0 && key !in s.data && Size(s) >= s.maxSize
    ensures |s.order| > 0
    ensures s.order[0] !in Set(s, key, value, ttl, now).data
    ensures forall k :: k in s.data && k != s.order[0] ==> k in Set(s, key, value, ttl, now).data
  {
    OrderMatchesSize(s);
  }

  /** Reading an entry moves it to the back of the eviction order; the others keep their order. */
  lemma GetRefreshes<V>(s: Store<V>, key: Key, now: int)
    requires Valid(s) && Live(s, key, now)
    ensures Get(s, key, now).0.order == RemoveFirst(s.order, key) + [key]
  {
  }

  /** An entry survives a cleanup exactly when a read at the same instant would return it. */
  lemma CleanupAgreesWithGet<V>(s: Store<V>, now: int, key: Key)
    requires Valid(s)
    ensures key in Cleanup(s, now).0.data <==> Get(s, key, now).1.Some?
  {
  }

  /** The count `cleanup` reports is the number of entries that left, and a second pass finds none. */
  lemma CleanupCount<V>(s: Store<V>, now: int)
    requires Valid(s)
    ensures var (s', n) := Cleanup(s, now); n == Size(s) - Size(s') && Cleanup(s', now).1 == 0
  {
    var s' := Cleanup(s, now).0;
    CleanupKeys(s, now);
    CardOfRest(s.data.Keys, Gone(s, now));
    CleanupLeavesNoneExpired(s, now);
  }

  lemma CleanupKeys<V>(s: Store<V>, now: int)
    requires Valid(s)
    ensures Cleanup(s, now).0.data.Keys == s.data.Keys - Gone(s, now)
    ensures Gone(s, now) <= s.data.Keys
  {
  }

  lemma CardOfRest<T>(b: set<T>, g: set<T>)
    requires g <= b
    ensures |b - g| == |b| - |g|
  {
    assert b == (b - g) + g;
  }

  lemma CleanupLeavesNoneExpired<V>(s: Store<V>, now: int)
    ensures Gone(Cleanup(s, now).0, now) == {}
  {
    var s' := Cleanup(s, now).0;
    forall k | k in s'.expires
      ensures s'.expires[k] > now
    {
    }
  }

  /**
   * Least-recently-used in action: in a store bounded to two entries, a
   * read of the older entry makes the other one the victim of the next
   * insertion.
   */
  lemma ReadProtectsFromEviction()
    ensures var s0 := New<int>(3600, 2);
      var s1 := Set(s0, "a", 1, None, 0);
      var s2 := Set(s1, "b", 2, None, 1);
      var s3 := Get(s2, "a", 2).0;
      var s4 := Set(s3, "c", 3, None, 3);
      s4.data == map["a" := 1, "c" := 3] && s4.order == ["a", "c"]
  {
    FirstWrite();
    SecondWrite();
    ReadOlder();
    ThirdWrite();
  }

  /** The stores of the scenario after each step. */
  const AfterA: Store<int> := Store(map["a" := 1], map["a" := 3600], ["a"], 3600, 2)
  const AfterB: Store<int> := Store(map["a" := 1, "b" := 2], map["a" := 3600, "b" := 3601], ["a", "b"], 3600, 2)
  const AfterRead: Store<int> := Store(map["a" := 1, "b" := 2], map["a" := 3600, "b" := 3601], ["b", "a"], 3600, 2)

  lemma FirstWrite()
    ensures Set(New<int>(3600, 2), "a", 1, None, 0) == AfterA
  {
    assert RemoveFirst([], "a") == [];
  }

  lemma SecondWrite()
    ensures Set(AfterA, "b", 2, None, 1) == AfterB
  {
    assert RemoveFirst(["a"], "b") == ["a"] + RemoveFirst([], "b");
  }

  lemma ReadOlder()
    ensures Get(AfterB, "a", 2).0 == AfterRead
  {
    assert RemoveFirst(["a", "b"], "a") == ["b"];
  }

  lemma ThirdWrite()
    ensures var s := Set(AfterRead, "c", 3, None, 3);
      s.data == map["a" := 1, "c" := 3] && s.order == ["a", "c"]
  {
    var e := Evict(AfterRead, "c");
    assert e.order == ["a"] && e.data == map["a" := 1];
    assert RemoveFirst(["a"], "c") == ["a"] + RemoveFirst([], "c");
  }
}
