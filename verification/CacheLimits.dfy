/** The two tiers together never outgrow their limits. */
module CacheLimits {
  import opened Wrappers
  import opened LruSpec
  import opened LruFacts
  import opened LruCaches
  import opened TwoTierCache

  /** Each tier holds at most its limit: memory in bytes, storage in recorded bytes. */
  ghost predicate Within(t: Tiers) {
    && DistinctKeys(t.memory) && Consistent(t.storage)
    && Sum(Lengths(t.memory)) <= t.memoryMax && StorageSize(t.storage) <= t.storageMax
  }

  lemma {:induction false} MemoryPutStays(m: seq<Slot<Bytes>>, key: string, data: Bytes, max: nat)
    requires DistinctKeys(m)
    ensures var r := MemoryPut(m, key, data, max); DistinctKeys(r) && Sum(Lengths(r)) <= max
  {
    MemoryPutFacts(m, key, data, max);
    MemoryTrimIsExact(Insert(SwapRemove(m, key), key, data), max);
  }

  lemma {:induction false} MemoryTrimStays(m: seq<Slot<Bytes>>, max: nat)
    requires DistinctKeys(m)
    ensures DistinctKeys(MemoryTrim(m, max)) && Sum(Lengths(MemoryTrim(m, max))) <= max
  {
    MemoryTrimIsExact(m, max);
    SuffixFacts(m, Evicted(Lengths(m), max));
  }

  lemma {:induction false} StorageTrimStays(st: Storage, max: nat)
    requires Consistent(st)
    ensures Consistent(StorageTrim(st, max)) && StorageSize(StorageTrim(st, max)) <= max
  {
    TrimKeepsConsistent(st, max);
    StorageTrimIsExact(st, max);
  }

  lemma {:induction false} GetStays(st: Storage, key: string)
    requires Consistent(st)
    ensures Consistent(StorageGet(st, key).0) && StorageSize(StorageGet(st, key).0) <= StorageSize(st)
  {
    GetKeepsConsistent(st, key);
    RemoveTakesItsSize(st, key, false);
    TouchKeepsRecorded(st, key);
  }

  lemma {:induction false} ResolveStaysWithin(t: Tiers, key: string)
    requires Within(t)
    ensures Within(Resolve(t, key).0)
  {
    hide DistinctKeys, Consistent, StorageSize, Sum, Lengths, StorageGet, MemoryPut, Touch;
    TouchFacts(t.memory, key);
    TouchKeepsSum(t.memory, key);
    GetStays(t.storage, key);
    var (storage, path) := StorageGet(t.storage, key);
    if path.Some? && path.value in storage.files {
      MemoryPutStays(t.memory, key, storage.files[path.value], t.memoryMax);
    }
  }

  lemma {:induction false} CompleteStaysWithin(t: Tiers, key: string, path: string, data: Bytes)
    requires Within(t)
    ensures Within(Complete(t, key, path, data))
  {
    hide DistinctKeys, Consistent, StorageSize, Sum, Lengths, StorageTrim, MemoryPut, Indexed;
    MemoryPutStays(t.memory, key, data, t.memoryMax);
    var written := t.storage.(files := t.storage.files[path := data]);
    FilesChangeNothing(t.storage, written);
    IndexedKeepsConsistent(written, key, path, |data|);
    StorageTrimStays(Indexed(written, key, path, |data|), t.storageMax);
  }

  lemma FilesChangeNothing(st: Storage, r: Storage)
    requires Consistent(st) && r.index == st.index && r.sizes == st.sizes
    ensures Consistent(r) && StorageSize(r) == StorageSize(st)
  {
  }

  lemma {:induction false} PurgeStaysWithin(t: Tiers, key: string)
    requires Within(t)
    ensures Within(Purge(t, key))
  {
    hide StorageSize, Sum, Lengths, RemoveEntry, ShiftRemove;
    RemovalFacts(t.memory, key);
    RemoveFromSum(t.memory, key);
    RemoveKeepsConsistent(t.storage, key, true);
    RemoveTakesItsSize(t.storage, key, true);
  }

  /** Nothing that happens to the cache takes a tier beyond its limit, whatever limit it is given. */
  lemma {:induction false} NextStaysWithin(t: Tiers, e: Event)
    requires Within(t) && (e.MemoryResized? || e.StorageResized? ==> e.max >= 0)
    ensures Within(Next(t, e))
  {
    hide DistinctKeys, Consistent, StorageSize, Sum, Lengths, Complete, Resolve, Purge, MemoryPut, MemoryTrim, StorageTrim;
    match e {
      case Completed(key, path, data) => CompleteStaysWithin(t, key, path, data);
      case MemoryStored(key, data) => MemoryPutStays(t.memory, key, data, t.memoryMax);
      case Resolved(key) => ResolveStaysWithin(t, key);
      case Purged(key) => PurgeStaysWithin(t, key);
      case MemoryResized(max) => MemoryTrimStays(t.memory, max);
      case StorageResized(max) => StorageTrimStays(t.storage, max);
      case MemoryCleared => NothingStays();
      case StorageCleared =>
        NothingStays();
        TrimKeepsConsistent(t.storage, -1);
        ClearedStorage(t.storage);
      case FilesLost(paths) => FilesChangeNothing(t.storage, t.storage.(files := t.storage.files - paths));
    }
  }

  lemma NothingStays()
    ensures DistinctKeys<Bytes>([]) && Sum(Lengths([])) == 0
  {
  }

  lemma ClearedStorage(st: Storage)
    ensures StorageTrim(st, -1).index == [] && StorageSize(StorageTrim(st, -1)) == 0
  {
  }

  /** So over any run. */
  lemma {:induction false} RunStaysWithin(t: Tiers, run: seq<Event>)
    requires Within(t) && forall e | e in run && (e.MemoryResized? || e.StorageResized?) :: e.max >= 0
    ensures Within(Run(t, run))
    decreases |run|
  {
    hide Within, Next;
    if run != [] {
      NextStaysWithin(t, run[0]);
      RunStaysWithin(Next(t, run[0]), run[1..]);
    }
  }

  /** Clearing a tier empties it, and clearing storage deletes every indexed file. */
  lemma ClearsAll(t: Tiers)
    ensures Next(t, MemoryCleared).memory == []
    ensures var st := Next(t, StorageCleared).storage;
            st.index == [] && st.files == t.storage.files - (set s | s in t.storage.index :: s.value)
  {
    assert Paths(t.storage.index) == set s | s in t.storage.index :: s.value;
    assert t.storage.index[..|t.storage.index|] == t.storage.index;
  }
}
