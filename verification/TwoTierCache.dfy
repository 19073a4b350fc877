/** Memory over storage over files, as one cache: it may forget, but it never answers wrongly. */
module TwoTierCache {
  import opened Wrappers
  import opened LruSpec
  import opened LruFacts

  datatype Tiers = Tiers(memory: seq<Slot<Bytes>>, memoryMax: int, storage: Storage, storageMax: int)

  /** read_bytes_from_cache: memory, then storage with promotion. */
  function Resolve(t: Tiers, key: string): (Tiers, Option<Bytes>) {
    var i := IndexOf(t.memory, key);
    if i < |t.memory| then (t.(memory := Touch(t.memory, key)), Some(t.memory[i].value))
    else
      var (storage, path) := StorageGet(t.storage, key);
      if path.Some? && path.value in storage.files then
        var data := storage.files[path.value];
        (t.(memory := MemoryPut(t.memory, key, data, t.memoryMax), storage := storage), Some(data))
      else (t.(storage := storage), None)
  }

  /** purge_cache_entry. */
  function Purge(t: Tiers, key: string): Tiers {
    t.(storage := RemoveEntry(t.storage, key, true), memory := ShiftRemove(t.memory, key))
  }

  /** finish_pool_download, and store_content_length: the finished file takes its place, then both tiers learn of it. */
  function Complete(t: Tiers, key: string, path: string, data: Bytes): Tiers {
    var written := t.storage.(files := t.storage.files[path := data]);
    t.(memory := MemoryPut(t.memory, key, data, t.memoryMax),
       storage := StoragePut(written, key, path, t.storageMax))
  }

  datatype Event =
    | Completed(key: string, path: string, data: Bytes)
    | MemoryStored(key: string, data: Bytes)   // a content length that could not be written, or a migrated one
    | Resolved(key: string)
    | Purged(key: string)
    | MemoryResized(max: int)
    | StorageResized(max: int)
    | MemoryCleared
    | StorageCleared
    | FilesLost(paths: set<string>)

  function Next(t: Tiers, e: Event): Tiers {
    match e
    case Completed(key, path, data) => Complete(t, key, path, data)
    case MemoryStored(key, data) => t.(memory := MemoryPut(t.memory, key, data, t.memoryMax))
    case Resolved(key) => Resolve(t, key).0
    case Purged(key) => Purge(t, key)
    case MemoryResized(max) => t.(memoryMax := max, memory := MemoryTrim(t.memory, max))
    case StorageResized(max) => t.(storageMax := max, storage := StorageTrim(t.storage, max))
    case MemoryCleared => t.(memory := [])
    case StorageCleared => t.(storage := StorageTrim(t.storage, -1))
    case FilesLost(paths) => t.(storage := t.storage.(files := t.storage.files - paths))
  }

  /** The map that the cache stands for: what was last completed, unless purged since. */
  function Remembered(last: map<string, Bytes>, e: Event): map<string, Bytes> {
    match e
    case Completed(key, _, data) => last[key := data]
    case MemoryStored(key, data) => last[key := data]
    case Purged(key) => last - {key}
    case _ => last
  }

  /** Storage has no slot of the key, or no file for it, or these very bytes in it. */
  predicate NothingOlder(st: Storage, key: string, data: Bytes) {
    var i := IndexOf(st.index, key);
    i < |st.index| && st.index[i].value in st.files ==> st.files[st.index[i].value] == data
  }

  /** Empty downloads fail; nothing is put in memory alone over other bytes in storage. */
  predicate Sensible(t: Tiers, e: Event) {
    && (e.Completed? ==> e.data != [])
    && (e.MemoryStored? ==> NothingOlder(t.storage, e.key, e.data))
  }

  /** Every path belongs to one key; a key may have several paths over time. */
  predicate Enabled(t: Tiers, e: Event, owner: string -> string) {
    Sensible(t, e) && (e.Completed? ==> owner(e.path) == e.key)
  }

  // ---------------------------------------------------------------------------------------
  // Refinement

  ghost predicate MemoryFaithful(m: seq<Slot<Bytes>>, last: map<string, Bytes>) {
    DistinctKeys(m) && forall s | s in m :: s.key in last && last[s.key] == s.value
  }

  /** One slot of a faithful index: its path is its key's own and holds the remembered bytes. */
  ghost predicate SlotFaithful(s: Slot<string>, files: map<string, Bytes>, last: map<string, Bytes>,
                               owner: string -> string)
  {
    owner(s.value) == s.key && (s.value in files ==> s.key in last && last[s.key] == files[s.value])
  }

  /** Indexed paths belong to their keys and hold, if anything, the remembered bytes. */
  ghost predicate StorageFaithful(st: Storage, last: map<string, Bytes>, owner: string -> string) {
    && Consistent(st)
    && forall s | s in st.index :: SlotFaithful(s, st.files, last, owner)
  }

  ghost predicate Faithful(t: Tiers, last: map<string, Bytes>, owner: string -> string) {
    MemoryFaithful(t.memory, last) && StorageFaithful(t.storage, last, owner)
  }

  /** What remains of a faithful index with fewer slots and files is faithful. */
  lemma LessStaysFaithful(st: Storage, r: Storage, last: map<string, Bytes>, owner: string -> string)
    requires StorageFaithful(st, last, owner) && Consistent(r)
    requires forall s | s in r.index :: s in st.index
    requires forall p | p in r.files :: p in st.files && r.files[p] == st.files[p]
    ensures StorageFaithful(r, last, owner)
  {
  }

  lemma TrimForgetsOnly(st: Storage, max: int)
    requires Consistent(st)
    ensures forall s | s in StorageTrim(st, max).index :: s in st.index
    ensures forall p | p in StorageTrim(st, max).files ::
              p in st.files && StorageTrim(st, max).files[p] == st.files[p]
  {
    hide KeysOf, Recorded, RealSizes;
    if max >= 0 {
      var r := Repaired(st);
      var n := Evicted(Recorded(r.index, r.sizes), max);
      forall s | s in r.index[n..] ensures s in st.index {
        assert s in r.index;
      }
    }
  }

  lemma {:induction false} TrimStaysFaithful(st: Storage, max: int, last: map<string, Bytes>, owner: string -> string)
    requires StorageFaithful(st, last, owner)
    ensures StorageFaithful(StorageTrim(st, max), last, owner)
  {
    TrimKeepsConsistent(st, max);
    TrimForgetsOnly(st, max);
    LessStaysFaithful(st, StorageTrim(st, max), last, owner);
  }

  lemma GetStaysFaithful(st: Storage, key: string, last: map<string, Bytes>, owner: string -> string)
    requires StorageFaithful(st, last, owner)
    ensures var (r, path) := StorageGet(st, key);
            && StorageFaithful(r, last, owner) && r.files == st.files
            && (path.Some? ==> path.value in r.files && key in last && last[key] == r.files[path.value])
  {
    hide KeysOf, Without;
    GetKeepsConsistent(st, key);
    TouchFacts(st.index, key);
    RemovalFacts(st.index, key);
    LessStaysFaithful(st, StorageGet(st, key).0, last, owner);
    var i := IndexOf(st.index, key);
    if i < |st.index| {
      assert st.index[i] in st.index;
    }
  }

  lemma {:induction false} ResolveStaysFaithful(t: Tiers, key: string, last: map<string, Bytes>, owner: string -> string)
    requires Faithful(t, last, owner)
    ensures var (r, answer) := Resolve(t, key);
            && Faithful(r, last, owner)
            && (answer.Some? ==> key in last && answer.value == last[key])
  {
    var i := IndexOf(t.memory, key);
    TouchFacts(t.memory, key);
    if i < |t.memory| {
      assert t.memory[i] in t.memory;
    } else {
      GetStaysFaithful(t.storage, key, last, owner);
      var (storage, path) := StorageGet(t.storage, key);
      if path.Some? {
        MemoryPutFacts(t.memory, key, storage.files[path.value], t.memoryMax);
      }
    }
  }

  lemma RemoveStaysFaithful(st: Storage, key: string, last: map<string, Bytes>, owner: string -> string)
    requires StorageFaithful(st, last, owner)
    ensures StorageFaithful(RemoveEntry(st, key, true), last - {key}, owner)
  {
    var r := RemoveEntry(st, key, true);
    RemovalFacts(st.index, key);
    RemoveKeepsConsistent(st, key, true);
    var i := IndexOf(st.index, key);
    hide KeysOf, ShiftRemove, DistinctKeys, Consistent;
    forall s | s in r.index ensures SlotFaithful(s, r.files, last - {key}, owner) {
      assert s in ShiftRemove(st.index, key);
      assert SlotFaithful(s, st.files, last, owner);
    }
  }

  lemma AbsentMeansNone(t: Tiers, key: string)
    requires key !in KeysOf(t.memory) && key !in KeysOf(t.storage.index)
    ensures Resolve(t, key).1 == None
  {
  }

  lemma PurgeStaysFaithful(t: Tiers, key: string, last: map<string, Bytes>, owner: string -> string)
    requires Faithful(t, last, owner)
    ensures Faithful(Purge(t, key), last - {key}, owner)
    ensures Resolve(Purge(t, key), key).1 == None
  {
    RemovalFacts(t.memory, key);
    RemovalFacts(t.storage.index, key);
    RemoveStaysFaithful(t.storage, key, last, owner);
    AbsentMeansNone(Purge(t, key), key);
  }

  /** A finished file replaces only files of its own key. */
  lemma OtherSlotsUntouched(s: Slot<string>, key: string, path: string, data: Bytes,
                            files: map<string, Bytes>, last: map<string, Bytes>, owner: string -> string)
    requires SlotFaithful(s, files, last, owner) && owner(path) == key && s.key != key
    ensures SlotFaithful(s, files[path := data], last[key := data], owner)
  {
  }

  /** The index drops the old slot of the completed key. */
  lemma IndexedStaysFaithful(st: Storage, key: string, path: string, data: Bytes,
                             last: map<string, Bytes>, owner: string -> string)
    requires StorageFaithful(st, last, owner) && owner(path) == key
    ensures StorageFaithful(Indexed(st.(files := st.files[path := data]), key, path, |data|), last[key := data], owner)
  {
    var written := st.(files := st.files[path := data]);
    IndexedKeepsConsistent(written, key, path, |data|);
    RemovalFacts(st.index, key);
    var r := Indexed(written, key, path, |data|);
    hide KeysOf, ShiftRemove, Insert, DistinctKeys, Consistent, Indexed;
    forall s | s in r.index ensures SlotFaithful(s, written.files, last[key := data], owner) {
      if s != Slot(key, path) {
        assert s in ShiftRemove(st.index, key);
        assert SlotFaithful(s, st.files, last, owner);
        OtherSlotsUntouched(s, key, path, data, st.files, last, owner);
      }
    }
    IndexedFiles(written, key, path, |data|);
  }

  lemma IndexedFiles(st: Storage, key: string, path: string, size: nat)
    ensures Indexed(st, key, path, size).files == st.files
  {
  }

  lemma CompleteStaysFaithful(t: Tiers, key: string, path: string, data: Bytes,
                              last: map<string, Bytes>, owner: string -> string)
    requires Faithful(t, last, owner) && owner(path) == key
    ensures Faithful(Complete(t, key, path, data), last[key := data], owner)
  {
    hide Indexed, StorageTrim, MemoryPut;
    MemoryPutFacts(t.memory, key, data, t.memoryMax);
    IndexedStaysFaithful(t.storage, key, path, data, last, owner);
    var written := t.storage.(files := t.storage.files[path := data]);
    TrimStaysFaithful(Indexed(written, key, path, |data|), t.storageMax, last[key := data], owner);
  }

  /** A put in memory alone keeps the cache faithful exactly when storage holds nothing older.  Otherwise,
      once memory has let go of it, the older bytes answer. */
  lemma {:induction false} MemoryStoredIsFaithfulExactly(t: Tiers, key: string, data: Bytes,
                                                         last: map<string, Bytes>, owner: string -> string)
    requires Faithful(t, last, owner)
    ensures var r := Next(t, MemoryStored(key, data));
            && (Faithful(r, last[key := data], owner) <==> NothingOlder(t.storage, key, data))
            && (!NothingOlder(t.storage, key, data) ==>
                  var answer := Resolve(Next(r, MemoryCleared), key).1; answer.Some? && answer.value != data)
  {
    hide MemoryPut, KeysOf;
    MemoryPutFacts(t.memory, key, data, t.memoryMax);
    var index := t.storage.index;
    var i := IndexOf(index, key);
    forall j | 0 <= j < |index|
      ensures SlotFaithful(index[j], t.storage.files, last[key := data], owner) <==>
              (j == i ==> NothingOlder(t.storage, key, data))
    {
      assert SlotFaithful(index[j], t.storage.files, last, owner);
      IndexOfSlot(index, j);
    }
    if i < |index| {
      assert index[i] in index;
    }
  }

  /** An instance: a length that could not be written over an older one, which memory then lets go of. */
  lemma {:induction false} OlderBytesAnswer() returns (t: Tiers, key: string, data: Bytes)
    ensures Consistent(t.storage) && t.memory == [] && Resolve(Next(t, MemoryStored(key, data)), key).1 == Some(data)
    ensures var gone := Next(Next(t, MemoryStored(key, data)), MemoryCleared);
            Resolve(gone, key).1.Some? && Resolve(gone, key).1.value != data
  {
    key, data := "k", [7];
    t := Tiers([], 10, Storage([Slot("k", "p")], map["k" := 1], map["p" := [5]]), 10);
    assert t.storage.index[0].key in KeysOf(t.storage.index);
    var last := map["k" := [5]];
    var owner: string -> string := _ => "k";
    assert IndexOf(t.storage.index, key) == 0;
    MemoryStoredIsFaithfulExactly(t, key, data, last, owner);
    PutIsYoungest([], key, data, 10);
    MemoryPutFacts([], key, data, 10);
    hide Resolve, MemoryPut;
    AnswersFromMemory(Next(t, MemoryStored(key, data)), Slot(key, data));
  }

  lemma {:induction false} NextStaysFaithful(t: Tiers, e: Event, last: map<string, Bytes>, owner: string -> string)
    requires Faithful(t, last, owner) && Enabled(t, e, owner)
    ensures Faithful(Next(t, e), Remembered(last, e), owner)
  {
    hide Complete, Resolve, Purge, StorageTrim;
    match e {
      case Completed(key, path, data) => CompleteStaysFaithful(t, key, path, data, last, owner);
      case MemoryStored(key, data) => MemoryStoredIsFaithfulExactly(t, key, data, last, owner);
      case Resolved(key) => ResolveStaysFaithful(t, key, last, owner);
      case Purged(key) => PurgeStaysFaithful(t, key, last, owner);
      case MemoryResized(max) => SuffixFacts(t.memory, Evicted(Lengths(t.memory), max));
      case StorageResized(max) => TrimStaysFaithful(t.storage, max, last, owner);
      case MemoryCleared =>
      case StorageCleared => TrimStaysFaithful(t.storage, -1, last, owner);
      case FilesLost(paths) =>
        LessStaysFaithful(t.storage, t.storage.(files := t.storage.files - paths), last, owner);
    }
  }

  ghost predicate AllEnabled(t: Tiers, run: seq<Event>, owner: string -> string)
    decreases |run|
  {
    run == [] || (Enabled(t, run[0], owner) && AllEnabled(Next(t, run[0]), run[1..], owner))
  }

  function Run(t: Tiers, run: seq<Event>): Tiers
    decreases |run|
  {
    if run == [] then t else Run(Next(t, run[0]), run[1..])
  }

  function RememberedRun(last: map<string, Bytes>, run: seq<Event>): map<string, Bytes>
    decreases |run|
  {
    if run == [] then last else RememberedRun(Remembered(last, run[0]), run[1..])
  }

  lemma {:induction false} RunStaysFaithful(t: Tiers, run: seq<Event>, last: map<string, Bytes>, owner: string -> string)
    requires Faithful(t, last, owner) && AllEnabled(t, run, owner)
    ensures Faithful(Run(t, run), RememberedRun(last, run), owner)
    decreases |run|
  {
    hide Next, Remembered, Faithful, Enabled;
    if run != [] {
      NextStaysFaithful(t, run[0], last, owner);
      RunStaysFaithful(Next(t, run[0]), run[1..], Remembered(last, run[0]), owner);
    }
  }

  /** What a restart finds on disk: each indexed file that exists counts as completed. */
  function OnDisk(index: seq<Slot<string>>, files: map<string, Bytes>): map<string, Bytes> {
    map k | k in KeysOf(index) && index[IndexOf(index, k)].value in files :: files[index[IndexOf(index, k)].value]
  }

  lemma RestartIsFaithful(st: Storage, memoryMax: int, storageMax: int, owner: string -> string)
    requires Consistent(st) && forall s | s in st.index :: owner(s.value) == s.key
    ensures Faithful(Tiers([], memoryMax, st, storageMax), OnDisk(st.index, st.files), owner)
  {
    forall s | s in st.index && s.value in st.files
      ensures s.key in OnDisk(st.index, st.files) && OnDisk(st.index, st.files)[s.key] == st.files[s.value]
    {
      var i :| 0 <= i < |st.index| && st.index[i] == s;
      IndexOfSlot(st.index, i);
    }
  }

  /** From a restart, over any run of completions, resolves, purges, resizes, clears, evictions and
      lost files, resolving a key yields nothing or exactly the bytes last completed for it. */
  lemma {:induction false} EveryAnswerIsLast(st: Storage, memoryMax: int, storageMax: int, owner: string -> string,
                          run: seq<Event>, key: string)
    requires Consistent(st) && forall s | s in st.index :: owner(s.value) == s.key
    requires AllEnabled(Tiers([], memoryMax, st, storageMax), run, owner)
    ensures var answer := Resolve(Run(Tiers([], memoryMax, st, storageMax), run), key).1;
            var last := RememberedRun(OnDisk(st.index, st.files), run);
            answer.Some? ==> key in last && answer.value == last[key]
  {
    hide Resolve, Run, RememberedRun, Faithful, OnDisk;
    var t := Tiers([], memoryMax, st, storageMax);
    var last := OnDisk(st.index, st.files);
    RestartIsFaithful(st, memoryMax, storageMax, owner);
    RunStaysFaithful(t, run, last, owner);
    ResolveStaysFaithful(Run(t, run), key, RememberedRun(last, run), owner);
  }

  /** And right after a purge of the key it yields nothing. */
  lemma {:induction false} PurgedMeansGone(st: Storage, memoryMax: int, storageMax: int, owner: string -> string,
                        run: seq<Event>, key: string)
    requires Consistent(st) && forall s | s in st.index :: owner(s.value) == s.key
    requires AllEnabled(Tiers([], memoryMax, st, storageMax), run, owner)
    ensures Resolve(Purge(Run(Tiers([], memoryMax, st, storageMax), run), key), key).1 == None
  {
    hide Resolve, Run, RememberedRun, Purge, OnDisk;
    var t := Tiers([], memoryMax, st, storageMax);
    RestartIsFaithful(st, memoryMax, storageMax, owner);
    RunStaysFaithful(t, run, OnDisk(st.index, st.files), owner);
    PurgeStaysFaithful(Run(t, run), key, RememberedRun(OnDisk(st.index, st.files), run), owner);
  }

  lemma {:induction false} YoungestSurvives(w: seq<nat>, max: int)
    requires w != [] && w[|w| - 1] <= max
    ensures Evicted(w, max) < |w|
  {
    if |w| == 1 {
      assert w[1..] == [];
      assert Sum(w) == w[0];
    } else {
      YoungestSurvives(w[1..], max);
    }
  }

  // ---------------------------------------------------------------------------------------
  // Promotions that are not one step

  lemma {:induction false} AllEvicted(w: seq<nat>, max: int)
    requires w != [] && w[|w| - 1] > max
    ensures Sum(w) > max && Evicted(w, max) == |w|
  {
    if |w| == 1 {
      assert w[1..] == [] && Sum(w) == w[0];
    } else {
      AllEvicted(w[1..], max);
    }
  }

  lemma {:induction false} PutIsYoungest(m: seq<Slot<Bytes>>, key: string, data: Bytes, max: int)
    requires DistinctKeys(m)
    ensures |data| <= max ==> Slot(key, data) in MemoryPut(m, key, data, max)
    ensures |data| > max ==> MemoryPut(m, key, data, max) == []
  {
    hide Insert, SwapRemove, Evicted;
    var r := Insert(SwapRemove(m, key), key, data);
    SwapFacts(m, key);
    AppendFacts(SwapRemove(m, key), key, data);
    assert r[|r| - 1] == Slot(key, data);
    if |data| <= max {
      YoungestSurvives(Lengths(r), max);
      var kept := MemoryPut(m, key, data, max);
      assert kept[|kept| - 1] == r[|r| - 1];
    } else {
      AllEvicted(Lengths(r), max);
    }
  }

  lemma ExistingKeepsYoungest(index: seq<Slot<string>>, files: map<string, Bytes>)
    requires index != [] && index[|index| - 1].value in files
    ensures var r := Existing(index, files); r != [] && r[|r| - 1] == index[|index| - 1]
  {
    hide Existing;
    assert index == index[..|index| - 1] + [index[|index| - 1]];
    ExistingOfJoin(index[..|index| - 1], index[|index| - 1], files);
  }

  /** The young end of the index survives a trim, with its file, exactly when it fits alone; else nothing does. */
  lemma {:induction false} YoungestStaysExactly(st: Storage, max: int, slot: Slot<string>)
    requires Consistent(st) && st.index != [] && st.index[|st.index| - 1] == slot && slot.value in st.files
    requires forall s | s in st.index && s.key != slot.key :: s.value != slot.value
    ensures var r, data := StorageTrim(st, max), st.files[slot.value];
            if |data| <= max then slot in r.index && slot.value in r.files && r.files[slot.value] == data
            else r.index == []
  {
    hide Existing, Recorded, Evicted, KeysOf, RealSizes;
    var r, data := StorageTrim(st, max), st.files[slot.value];
    if max >= 0 {
      RepairedTrueSizes(st);
      RepairKeepsConsistent(st);
      ExistingKeepsYoungest(st.index, st.files);
      var kept := Repaired(st);
      var w := Recorded(kept.index, kept.sizes);
      assert w[|w| - 1] == |data|;
      var n := TrimSplits(st, max);
      hide Repaired;
      if |data| <= max {
        YoungestSurvives(w, max);
        assert r.index[|r.index| - 1] == slot;
        assert slot.value !in Paths(kept.index[..n]) by {
          forall i | 0 <= i < n ensures kept.index[..n][i].value != slot.value {
            assert kept.index[i] in st.index && kept.index[i].key != kept.index[|kept.index| - 1].key;
          }
        }
      } else {
        AllEvicted(w, max);
      }
    }
  }

  /** What storage alone answers for a key indexed with an existing file, and for a key it lacks. */
  lemma AnswersFromStorage(t: Tiers, slot: Slot<string>)
    requires DistinctKeys(t.storage.index) && slot.key !in KeysOf(t.memory)
    requires slot in t.storage.index ==> slot.value in t.storage.files
    requires slot in t.storage.index || t.storage.index == []
    ensures Resolve(t, slot.key).1 == if slot in t.storage.index then Some(t.storage.files[slot.value]) else None
  {
    if slot in t.storage.index {
      var i :| 0 <= i < |t.storage.index| && t.storage.index[i] == slot;
      IndexOfSlot(t.storage.index, i);
    }
  }

  lemma AnswersFromMemory(t: Tiers, slot: Slot<Bytes>)
    requires DistinctKeys(t.memory) && slot in t.memory
    ensures Resolve(t, slot.key).1 == Some(slot.value)
  {
    var i :| 0 <= i < |t.memory| && t.memory[i] == slot;
    IndexOfSlot(t.memory, i);
  }

  /** A completion is found again exactly when it fits one of the tiers. */
  lemma {:induction false} CompletedIsFound(t: Tiers, key: string, path: string, data: Bytes,
                                            last: map<string, Bytes>, owner: string -> string)
    requires Faithful(t, last, owner) && owner(path) == key
    ensures Resolve(Complete(t, key, path, data), key).1 ==
            if |data| <= t.memoryMax || |data| <= t.storageMax then Some(data) else None
  {
    var r := Complete(t, key, path, data);
    MemoryPutFacts(t.memory, key, data, t.memoryMax);
    PutIsYoungest(t.memory, key, data, t.memoryMax);
    var written := t.storage.(files := t.storage.files[path := data]);
    var st := Indexed(written, key, path, |data|);
    assert r.storage == StorageTrim(st, t.storageMax) && r.memory == MemoryPut(t.memory, key, data, t.memoryMax);
    IndexedYoungest(t.storage, key, path, data, last, owner);
    YoungestStaysExactly(st, t.storageMax, Slot(key, path));
    TrimKeepsConsistent(st, t.storageMax);
    hide Complete, Resolve, Indexed, StorageTrim, MemoryPut;
    if |data| <= t.memoryMax {
      AnswersFromMemory(r, Slot(key, data));
    } else {
      AnswersFromStorage(r, Slot(key, path));
    }
  }

  lemma IndexedYoungest(st: Storage, key: string, path: string, data: Bytes,
                        last: map<string, Bytes>, owner: string -> string)
    requires StorageFaithful(st, last, owner) && owner(path) == key
    ensures var r := Indexed(st.(files := st.files[path := data]), key, path, |data|);
            && Consistent(r) && r.files == st.files[path := data]
            && r.index != [] && r.index[|r.index| - 1] == Slot(key, path)
            && forall s | s in r.index && s.key != key :: s.value != path
  {
    var written := st.(files := st.files[path := data]);
    IndexedKeepsConsistent(written, key, path, |data|);
    IndexedStaysFaithful(st, key, path, data, last, owner);
    RemovalFacts(st.index, key);
    AppendFacts(ShiftRemove(st.index, key), key, path);
    hide ShiftRemove, KeysOf, Insert;
  }

  /** A promotion that read `data` earlier and stores it now leaves the cache faithful exactly when
      those are still the remembered bytes, or do not fit in memory.  Otherwise, after a purge or a
      newer completion in between, the next resolve answers with them. */
  lemma {:induction false} LatePromotionIsFaithfulExactly(t: Tiers, key: string, data: Bytes,
                                                          last: map<string, Bytes>, owner: string -> string)
    requires Faithful(t, last, owner)
    ensures var late := t.(memory := MemoryPut(t.memory, key, data, t.memoryMax));
            && (Faithful(late, last, owner) <==> (key in last && last[key] == data) || |data| > t.memoryMax)
            && (!Faithful(late, last, owner) ==> Resolve(late, key).1 == Some(data))
  {
    hide StorageFaithful, StorageGet, KeysOf, Touch, SwapRemove, Insert, Evicted, Lengths;
    var m := MemoryPut(t.memory, key, data, t.memoryMax);
    MemoryPutFacts(t.memory, key, data, t.memoryMax);
    PutIsYoungest(t.memory, key, data, t.memoryMax);
    hide MemoryPut;
    if |data| <= t.memoryMax {
      var i :| 0 <= i < |m| && m[i] == Slot(key, data);
      IndexOfSlot(m, i);
    }
  }

  /** An instance: a promotion that read the file before a purge brings the purged key back. */
  lemma {:induction false} LatePromotionResurrects() returns (t: Tiers, key: string, data: Bytes)
    ensures Resolve(t, key).1 == Some(data) && IndexOf(t.memory, key) == |t.memory|
    ensures var late := Purge(t, key).(memory := MemoryPut(Purge(t, key).memory, key, data, t.memoryMax));
            Resolve(late, key).1 == Some(data)
  {
    key, data := "k", [7];
    var slot := Slot("k", "p");
    t := Tiers([], 10, Storage([slot], map["k" := 1], map["p" := data]), 10);
    assert IndexOf([slot], key) == 0;
    var put := MemoryPut([], key, data, 10);
    assert SwapRemove<Bytes>([], key) == [];
    assert Insert<Bytes>([], key, data) == [Slot(key, data)];
    assert Lengths([Slot(key, data)]) == [1];
    assert Evicted([1], 10) == 0;
    assert put == [Slot(key, data)];
    assert IndexOf(put, key) == 0;
  }

  lemma ResolvedFromMemory(t: Tiers, key: string)
    requires DistinctKeys(t.memory) && key in KeysOf(t.memory)
    ensures var (r, answer) := Resolve(t, key);
            answer.Some? && DistinctKeys(r.memory) && Slot(key, answer.value) in r.memory
  {
    TouchFacts(t.memory, key);
    var i := IndexOf(t.memory, key);
    hide Touch, KeysOf;
    assert t.memory[i] in t.memory && t.memory[i] == Slot(key, t.memory[i].value);
  }

  lemma ResolvedFromStorage(t: Tiers, key: string)
    requires DistinctKeys(t.memory) && key !in KeysOf(t.memory)
    ensures var (r, answer) := Resolve(t, key);
            && DistinctKeys(r.memory)
            && (answer.Some? && |answer.value| <= t.memoryMax ==> Slot(key, answer.value) in r.memory)
  {
    hide MemoryPut, KeysOf, StorageGet;
    var (storage, path) := StorageGet(t.storage, key);
    if path.Some? && path.value in storage.files {
      PutIsYoungest(t.memory, key, storage.files[path.value], t.memoryMax);
      MemoryPutFacts(t.memory, key, storage.files[path.value], t.memoryMax);
    }
  }

  /** What was answered stays in memory: while it fits, the next resolve gives the same even when the files
      are lost meanwhile, and a hit in memory did not need to fit. */
  lemma {:induction false} AnswerIsKept(t: Tiers, key: string, lost: set<string>)
    requires DistinctKeys(t.memory)
    ensures var (r, answer) := Resolve(t, key);
            answer.Some? && (key in KeysOf(t.memory) || |answer.value| <= t.memoryMax) ==>
              Resolve(r, key).1 == answer && Resolve(Next(r, FilesLost(lost)), key).1 == answer
  {
    hide Resolve, KeysOf, Complete, Purge, MemoryPut, StorageTrim, MemoryTrim;
    var (r, answer) := Resolve(t, key);
    var gone := Next(r, FilesLost(lost));
    assert gone.memory == r.memory;
    hide Next;
    if key in KeysOf(t.memory) {
      ResolvedFromMemory(t, key);
    } else {
      ResolvedFromStorage(t, key);
    }
    if answer.Some? && Slot(key, answer.value) in r.memory {
      AnswersFromMemory(r, Slot(key, answer.value));
      AnswersFromMemory(gone, Slot(key, answer.value));
    }
  }

  // ---------------------------------------------------------------------------------------
  // Paths shared by two keys

  /** The path is indexed for the key at the start, or a completion of the run puts it there. */
  ghost predicate UsedFor(st: Storage, run: seq<Event>, path: string, key: string) {
    || Slot(key, path) in st.index
    || exists i :: 0 <= i < |run| && run[i].Completed? && run[i].key == key && run[i].path == path
  }

  ghost predicate NoPathShared(st: Storage, run: seq<Event>) {
    forall path, k, l | UsedFor(st, run, path, k) && UsedFor(st, run, path, l) :: k == l
  }

  lemma OwnerOf(st: Storage, run: seq<Event>) returns (owner: string -> string)
    requires NoPathShared(st, run)
    ensures forall path, key | UsedFor(st, run, path, key) :: owner(path) == key
  {
    owner := path => if exists k :: UsedFor(st, run, path, k) then (var k :| UsedFor(st, run, path, k); k) else "";
  }

  ghost predicate AllSensible(t: Tiers, run: seq<Event>)
    decreases |run|
  {
    run == [] || (Sensible(t, run[0]) && AllSensible(Next(t, run[0]), run[1..]))
  }

  lemma {:induction false} SensibleIsEnabled(t: Tiers, run: seq<Event>, owner: string -> string)
    requires AllSensible(t, run)
    requires forall i | 0 <= i < |run| && run[i].Completed? :: owner(run[i].path) == run[i].key
    ensures AllEnabled(t, run, owner)
    decreases |run|
  {
    hide Next, Sensible;
    if run != [] {
      assert forall i | 0 <= i < |run[1..]| :: run[1..][i] == run[i + 1];
      SensibleIsEnabled(Next(t, run[0]), run[1..], owner);
    }
  }

  /** A wrong answer needs a path shared by two keys. */
  lemma {:induction false} WrongAnswerNeedsSharedPath(st: Storage, memoryMax: int, storageMax: int,
                                                      run: seq<Event>, key: string)
    requires Consistent(st) && AllSensible(Tiers([], memoryMax, st, storageMax), run)
    requires var answer := Resolve(Run(Tiers([], memoryMax, st, storageMax), run), key).1;
             var last := RememberedRun(OnDisk(st.index, st.files), run);
             answer.Some? && (key !in last || answer.value != last[key])
    ensures !NoPathShared(st, run)
  {
    hide Resolve, Run, RememberedRun, OnDisk, Consistent, AllSensible, AllEnabled;
    if NoPathShared(st, run) {
      var owner := OwnerOf(st, run);
      forall s | s in st.index ensures owner(s.value) == s.key {
        assert UsedFor(st, run, s.value, s.key);
      }
      forall i | 0 <= i < |run| && run[i].Completed? ensures owner(run[i].path) == run[i].key {
        assert UsedFor(st, run, run[i].path, run[i].key);
      }
      SensibleIsEnabled(Tiers([], memoryMax, st, storageMax), run, owner);
      EveryAnswerIsLast(st, memoryMax, storageMax, owner, run, key);
    }
  }

  /** A trim with room for all that is indexed, and with every file there, changes nothing. */
  lemma {:induction false} RoomyTrim(st: Storage, max: nat)
    requires Consistent(st) && (forall s | s in st.index :: s.value in st.files)
    requires Existing(st.index, st.files) == st.index
    requires Sum(Recorded(st.index, RealSizes(st.index, st.files))) <= max
    ensures StorageTrim(st, max).index == st.index && StorageTrim(st, max).files == st.files
  {
    hide Existing, RealSizes, Recorded, Sum, KeysOf, Paths, EvictFront, Evicted, Consistent;
    NothingEvicted(Recorded(st.index, RealSizes(st.index, st.files)), max);
    EvictNone(Repaired(st));
  }

  lemma EvictNone(st: Storage)
    ensures EvictFront(st, 0).index == st.index && EvictFront(st, 0).files == st.files
  {
    assert st.index[0..] == st.index;
    assert Paths(st.index[..0]) == {};
  }

  lemma NothingEvicted(w: seq<nat>, max: int)
    requires Sum(w) <= max
    ensures Evicted(w, max) == 0
  {
  }

  /** A key found in storage only answers with what its path holds. */
  lemma AnswersFromPath(t: Tiers, i: nat)
    requires DistinctKeys(t.storage.index) && i < |t.storage.index|
    requires IndexOf(t.memory, t.storage.index[i].key) == |t.memory| && t.storage.index[i].value in t.storage.files
    ensures Resolve(t, t.storage.index[i].key).1 == Some(t.storage.files[t.storage.index[i].value])
  {
    IndexOfSlot(t.storage.index, i);
  }

  /** Two keys "a" and "b" under one path, holding one byte. */
  function Shared(byte: Byte): Storage {
    Storage([Slot("a", "p"), Slot("b", "p")], map["a" := 1, "b" := 1], map["p" := [byte]])
  }

  lemma SharedIsConsistent(byte: Byte)
    ensures Consistent(Shared(byte))
  {
    var index := Shared(byte).index;
    assert "a"[0] != "b"[0];
    assert index[0].key in KeysOf(index) && index[1].key in KeysOf(index);
  }

  lemma SharedExists(byte: Byte)
    ensures Existing(Shared(byte).index, Shared(byte).files) == Shared(byte).index
  {
    var st := Shared(byte);
    assert st.index[1..] == [Slot("b", "p")] && st.index[1..][1..] == [];
    assert Existing(st.index[1..], st.files) == [Slot("b", "p")] + Existing([], st.files);
  }

  lemma SharedHasRoom(byte: Byte)
    ensures Consistent(Shared(byte)) && StorageTrim(Shared(byte), 10).index == Shared(byte).index
    ensures StorageTrim(Shared(byte), 10).files == Shared(byte).files
  {
    hide Existing, StorageTrim, Consistent;
    var st := Shared(byte);
    SharedIsConsistent(byte);
    SharedExists(byte);
    var w := Recorded(st.index, RealSizes(st.index, st.files));
    assert w == [1, 1];
    hide RealSizes, Recorded, KeysOf;
    assert w[1..] == [1] && [1][1..] == [];
    assert Sum([1]) == 1;
    RoomyTrim(st, 10);
  }

  lemma SharedRewritten()
    ensures var written := Shared(1).(files := Shared(1).files["p" := [2]]);
            Indexed(written, "b", "p", 1) == Shared(2) && SafeSize(written.files, "p") == 1
  {
    var written := Shared(1).(files := Shared(1).files["p" := [2]]);
    assert "a"[0] != "b"[0];
    var i := IndexOf(written.index, "b");
    assert i == 1;
    var less := ShiftRemove(written.index, "b");
    assert less == [Slot("a", "p")];
    assert IndexOf(less, "b") == 1;
    assert written.sizes - {"b"} == map["a" := 1];
  }

  lemma OtherNotPut(key: string, other: string, data: Bytes, max: int)
    requires key != other
    ensures IndexOf(MemoryPut([], key, data, max), other) == |MemoryPut([], key, data, max)|
  {
    MemoryPutFacts([], key, data, max);
  }

  /** And a shared path does give one: a completion of "b" in the file of "a" is what "a" then answers
      with.  Content-length files of one url under two custom cache hosts share a path like this. */
  lemma {:induction false} SharedPathAnswersWrongly() returns (t: Tiers, e: Event)
    ensures t.memory == [] && Consistent(t.storage) && AllSensible(t, [e]) && e.Completed? && e.key == "b"
    ensures Resolve(t, "a").1 == Some([1]) && Resolve(Next(t, e), "a").1 == Some([2])
  {
    hide Resolve, Indexed, StorageTrim, MemoryPut, KeysOf, SafeSize, Sum;
    t := Tiers([], 10, Shared(1), 10);
    e := Completed("b", "p", [2]);
    assert "a"[0] != "b"[0];
    SharedHasRoom(1);
    SharedHasRoom(2);
    AnswersFromPath(t, 0);
    assert [e][1..] == [];
    SharedRewritten();
    var r := Next(t, e);
    assert r.storage == StorageTrim(Shared(2), 10);
    TrimKeepsConsistent(Shared(2), 10);
    OtherNotPut("b", "a", [2], 10);
    AnswersFromPath(r, 0);
  }
}
