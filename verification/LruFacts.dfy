/** Index consistency, exact eviction and recency order of the cache tiers. */
module LruFacts {
  import opened Wrappers
  import opened LruSpec

  // ---------------------------------------------------------------------------------------
  // The storage index stays consistent, whatever happens to the files

  lemma {:induction false} SumWithout(w: seq<nat>, i: nat)
    requires i < |w|
    ensures Sum(Without(w, i)) == Sum(w) - w[i]
  {
    SumOfJoin(w[..i], w[i + 1..]);
    SumOfJoin([w[i]], w[i + 1..]);
    SumOfJoin(w[..i], [w[i]] + w[i + 1..]);
    assert w == w[..i] + ([w[i]] + w[i + 1..]);
  }

  lemma RecordedAfterRemoval(index: seq<Slot<string>>, sizes: map<string, nat>, i: nat)
    requires DistinctKeys(index) && i < |index|
    ensures Recorded(Without(index, i), sizes - {index[i].key}) == Without(Recorded(index, sizes), i)
  {
    hide Without;
    var r, rest, v := Without(index, i), sizes - {index[i].key}, Without(Recorded(index, sizes), i);
    forall j | 0 <= j < |r| ensures v[j] == if r[j].key in rest then rest[r[j].key] else 0 {
      WithoutAt(index, i, j);
      WithoutAt(Recorded(index, sizes), i, j);
      assert index[if j < i then j else j + 1].key != index[i].key;
    }
    RecordedAre(r, rest, v);
  }

  lemma RemoveKeepsConsistent(st: Storage, key: string, deleteFile: bool)
    requires Consistent(st)
    ensures Consistent(RemoveEntry(st, key, deleteFile))
  {
    RemovalFacts(st.index, key);
  }

  lemma {:induction false} RemoveTakesItsSize(st: Storage, key: string, deleteFile: bool)
    requires Consistent(st)
    ensures StorageSize(RemoveEntry(st, key, deleteFile)) ==
            StorageSize(st) - if key in st.sizes then st.sizes[key] else 0
  {
    hide KeysOf;
    var i := IndexOf(st.index, key);
    if i < |st.index| {
      RecordedAfterRemoval(st.index, st.sizes, i);
      SumWithout(Recorded(st.index, st.sizes), i);
    }
  }

  lemma {:induction false} ExistingOfJoin(index: seq<Slot<string>>, slot: Slot<string>, files: map<string, Bytes>)
    ensures Existing(index + [slot], files) ==
            Existing(index, files) + if slot.value in files then [slot] else []
  {
    hide Existing;
    ExistingOfCons(index + [slot], files);
    if index == [] {
      assert index + [slot] == [slot] && [slot][1..] == [];
      ExistingOfNone(files);
    } else {
      ExistingOfJoin(index[1..], slot, files);
      ExistingOfCons(index, files);
      assert (index + [slot])[1..] == index[1..] + [slot];
    }
  }

  lemma ExistingOfNone(files: map<string, Bytes>)
    ensures Existing([], files) == []
  {
  }

  lemma ExistingOfCons(index: seq<Slot<string>>, files: map<string, Bytes>)
    requires index != []
    ensures Existing(index, files) ==
            (if index[0].value in files then [index[0]] else []) + Existing(index[1..], files)
  {
  }

  lemma {:induction false} ExistingFacts(index: seq<Slot<string>>, files: map<string, Bytes>)
    requires DistinctKeys(index)
    ensures DistinctKeys(Existing(index, files))
    ensures KeysOf(Existing(index, files)) <= KeysOf(index)
  {
    hide KeysOf;
    FewerKeys(Existing(index, files), index);
    if index != [] {
      ExistingFacts(index[1..], files);
      var r := Existing(index[1..], files);
      forall j | 0 <= j < |r| ensures r[j].key != index[0].key {
        assert r[j] in index[1..];
      }
      assert Existing(index, files) == if index[0].value in files then [index[0]] + r else r;
    }
  }

  lemma FewerKeys<V>(r: seq<Slot<V>>, m: seq<Slot<V>>)
    requires forall s | s in r :: s in m
    ensures KeysOf(r) <= KeysOf(m)
  {
    forall k | k in KeysOf(r) ensures k in KeysOf(m) {
      var j :| 0 <= j < |r| && r[j].key == k;
      assert r[j] in m;
    }
  }

  lemma RepairKeepsConsistent(st: Storage)
    requires Consistent(st)
    ensures Consistent(Repaired(st))
  {
    ExistingFacts(st.index, st.files);
  }

  lemma RepairKeepsFiles(st: Storage)
    ensures Repaired(st).files == st.files
  {
  }

  lemma {:induction false} EvictKeepsConsistent(st: Storage, n: nat)
    requires Consistent(st) && n <= |st.index|
    ensures Consistent(EvictFront(st, n))
    ensures Recorded(EvictFront(st, n).index, EvictFront(st, n).sizes) == Recorded(st.index, st.sizes)[n..]
  {
    SuffixFacts(st.index, n);
    RecordedSuffix(st, n);
  }

  lemma RecordedSuffix(st: Storage, n: nat)
    requires Consistent(st) && n <= |st.index|
    requires KeysOf(st.index[n..]) !! KeysOf(st.index[..n])
    ensures Recorded(st.index[n..], st.sizes - KeysOf(st.index[..n])) == Recorded(st.index, st.sizes)[n..]
  {
    var r := st.index[n..];
    forall i | 0 <= i < |r| ensures r[i].key !in KeysOf(st.index[..n]) && r[i] == st.index[n + i] {
      assert r[i].key in KeysOf(r);
    }
    hide KeysOf, Consistent;
    RecordedAre(r, st.sizes - KeysOf(st.index[..n]), Recorded(st.index, st.sizes)[n..]);
  }

  lemma {:induction false} TrimKeepsConsistent(st: Storage, max: int)
    requires Consistent(st)
    ensures Consistent(StorageTrim(st, max))
  {
    if max < 0 {
      EvictKeepsConsistent(st, |st.index|);
    } else {
      RepairKeepsConsistent(st);
      var r := Repaired(st);
      EvictKeepsConsistent(r, Evicted(Recorded(r.index, r.sizes), max));
    }
  }

  lemma RecordedAfterAppend(index: seq<Slot<string>>, sizes: map<string, nat>, key: string, path: string, size: nat)
    requires key !in KeysOf(index)
    ensures Recorded(index + [Slot(key, path)], sizes[key := size]) == Recorded(index, sizes) + [size]
  {
    forall i | 0 <= i < |index| ensures index[i].key != key {
      assert index[i].key in KeysOf(index);
    }
    RecordedAre(index + [Slot(key, path)], sizes[key := size], Recorded(index, sizes) + [size]);
  }

  lemma {:induction false} IndexedKeepsConsistent(st: Storage, key: string, path: string, size: nat)
    requires Consistent(st)
    ensures Consistent(Indexed(st, key, path, size))
    ensures Indexed(st, key, path, size).index == ShiftRemove(st.index, key) + [Slot(key, path)]
    ensures StorageSize(Indexed(st, key, path, size)) ==
            StorageSize(st) - (if key in st.sizes then st.sizes[key] else 0) + size
  {
    RemovalFacts(st.index, key);
    RemoveKeepsConsistent(st, key, false);
    RemoveTakesItsSize(st, key, false);
    var r := RemoveEntry(st, key, false);
    assert r.index == ShiftRemove(st.index, key);
    AppendFacts(r.index, key, path);
    RecordedAfterAppend(r.index, r.sizes, key, path, size);
    SumOfJoin(Recorded(r.index, r.sizes), [size]);
  }

  lemma TouchFacts<V>(m: seq<Slot<V>>, key: string)
    requires DistinctKeys(m)
    ensures DistinctKeys(Touch(m, key)) && KeysOf(Touch(m, key)) == KeysOf(m)
    ensures forall s :: s in Touch(m, key) <==> s in m
    ensures IndexOf(m, key) < |m| ==>
              Touch(m, key) == ShiftRemove(m, key) + [Slot(key, m[IndexOf(m, key)].value)]
  {
    RemovalFacts(m, key);
    var i := IndexOf(m, key);
    if i < |m| {
      AppendFacts(ShiftRemove(m, key), key, m[i].value);
      assert m[i] == Slot(key, m[i].value);
      forall s | s in m ensures s in Touch(m, key) {
        var j :| 0 <= j < |m| && m[j] == s;
        if s.key == key {
          assert j == i;
        }
      }
    }
  }

  lemma GetKeepsConsistent(st: Storage, key: string)
    requires Consistent(st)
    ensures Consistent(StorageGet(st, key).0)
  {
    TouchFacts(st.index, key);
    RemoveKeepsConsistent(st, key, false);
  }

  /** What one cache operation, or the world outside, may do to the storage tier. */
  datatype StorageEvent =
    | Put(key: string, path: string, max: int)
    | Get(key: string)
    | Remove(key: string)
    | Restore(key: string, path: string, size: nat)
    | Trim(max: int)
    | FilesChange(files: map<string, Bytes>)

  function StorageNext(st: Storage, e: StorageEvent): Storage {
    match e
    case Put(key, path, max) => StoragePut(st, key, path, max)
    case Get(key) => StorageGet(st, key).0
    case Remove(key) => RemoveEntry(st, key, true)
    case Restore(key, path, size) => Indexed(st, key, path, size)
    case Trim(max) => StorageTrim(st, max)
    case FilesChange(files) => st.(files := files)
  }

  function StorageRun(st: Storage, run: seq<StorageEvent>): Storage
    decreases |run|
  {
    if run == [] then st else StorageRun(StorageNext(st, run[0]), run[1..])
  }

  lemma StorageNextKeepsConsistent(st: Storage, e: StorageEvent)
    requires Consistent(st)
    ensures Consistent(StorageNext(st, e))
  {
    match e {
      case Put(key, path, max) =>
        IndexedKeepsConsistent(st, key, path, SafeSize(st.files, path));
        TrimKeepsConsistent(Indexed(st, key, path, SafeSize(st.files, path)), max);
      case Get(key) => GetKeepsConsistent(st, key);
      case Remove(key) => RemoveKeepsConsistent(st, key, true);
      case Restore(key, path, size) => IndexedKeepsConsistent(st, key, path, size);
      case Trim(max) => TrimKeepsConsistent(st, max);
      case FilesChange(_) =>
    }
  }

  /** In every reachable state the recorded sizes cover exactly the indexed keys, whatever files
      appear, change or vanish between the operations. */
  lemma {:induction false} StorageStaysConsistent(st: Storage, run: seq<StorageEvent>)
    requires Consistent(st)
    ensures Consistent(StorageRun(st, run))
    decreases |run|
  {
    if run != [] {
      StorageNextKeepsConsistent(st, run[0]);
      StorageStaysConsistent(StorageNext(st, run[0]), run[1..]);
    }
  }

  // ---------------------------------------------------------------------------------------
  // After a trim

  /** The recorded size of each slot is the size of its file. */
  ghost predicate TrueSizes(st: Storage) {
    forall i | 0 <= i < |st.index| :: st.index[i].value in st.files && st.index[i].key in st.sizes
                                      && st.sizes[st.index[i].key] == |st.files[st.index[i].value]|
  }

  ghost predicate UnsharedPaths(index: seq<Slot<string>>) {
    forall i, j | 0 <= i < j < |index| :: index[i].value != index[j].value
  }

  lemma {:induction false} IndexOfSlot<V>(m: seq<Slot<V>>, i: nat)
    requires DistinctKeys(m) && i < |m|
    ensures IndexOf(m, m[i].key) == i
  {
    assert m[i].key in KeysOf(m);
  }

  lemma RepairedTrueSizes(st: Storage)
    requires Consistent(st)
    ensures TrueSizes(Repaired(st))
  {
    var r := Repaired(st);
    ExistingFacts(st.index, st.files);
    forall i | 0 <= i < |r.index|
      ensures r.index[i].value in st.files && r.index[i].key in r.sizes
              && r.sizes[r.index[i].key] == |st.files[r.index[i].value]|
    {
      assert r.index[i] in r.index;
      IndexOfSlot(r.index, i);
    }
  }

  /** How a trim splits the slots whose file exists: `n` evicted, the rest kept. */
  lemma {:induction false} TrimSplits(st: Storage, max: nat) returns (n: nat)
    requires Consistent(st)
    ensures var kept, r := Repaired(st), StorageTrim(st, max);
            && n == Evicted(Recorded(kept.index, kept.sizes), max) <= |kept.index|
            && n == |kept.index| - |r.index|
            && r.index == kept.index[n..] && r.files == st.files - Paths(kept.index[..n])
            && Recorded(r.index, r.sizes) == Recorded(kept.index, kept.sizes)[n..]
            && (forall i | 0 <= i < |r.index| :: r.index[i].key in r.sizes && r.index[i].key in kept.sizes
                                                 && r.sizes[r.index[i].key] == kept.sizes[r.index[i].key])
  {
    hide Repaired, Recorded, Evicted, Consistent;
    RepairKeepsConsistent(st);
    RepairKeepsFiles(st);
    var kept := Repaired(st);
    n := Evicted(Recorded(kept.index, kept.sizes), max);
    EvictKeepsConsistent(kept, n);
    KeepsSizes(kept, n);
  }

  lemma KeepsSizes(st: Storage, n: nat)
    requires Consistent(st) && n <= |st.index| && Consistent(EvictFront(st, n))
    ensures var r := EvictFront(st, n);
            forall i | 0 <= i < |r.index| :: r.index[i].key in r.sizes && r.index[i].key in st.sizes
                                             && r.sizes[r.index[i].key] == st.sizes[r.index[i].key]
  {
    var r := EvictFront(st, n);
    forall i | 0 <= i < |r.index| ensures r.index[i].key in r.sizes {
      assert r.index[i].key in KeysOf(r.index);
    }
  }

  /** Survivors of a trim: of the slots whose file exists, the longest suffix whose real sizes
      sum to at most `max`. */
  lemma {:induction false} StorageTrimIsExact(st: Storage, max: nat)
    requires Consistent(st)
    ensures var kept, r := Existing(st.index, st.files), StorageTrim(st, max);
            var w := Recorded(kept, RealSizes(kept, st.files));
            var n := |kept| - |r.index|;
            && n >= 0 && r.index == kept[n..] && Recorded(r.index, r.sizes) == w[n..]
            && StorageSize(r) <= max
            && (forall k | 0 <= k < n :: Sum(w[k..]) > max)
  {
    var n := TrimSplits(st, max);
    EvictionIsExact(Recorded(Repaired(st).index, Repaired(st).sizes), max);
  }

  /** After a trim every survivor's file is there with its recorded size exactly when no survivor
      shares its path with an evicted slot. */
  lemma {:induction false} TrimmedFilesExistExactly(st: Storage, max: nat)
    requires Consistent(st)
    ensures var r, kept := StorageTrim(st, max), Existing(st.index, st.files);
            |r.index| <= |kept| &&
            (TrueSizes(r) <==> Paths(r.index) !! Paths(kept[..|kept| - |r.index|]))
  {
    RepairedTrueSizes(st);
    var n := TrimSplits(st, max);
    SurvivorsExistExactly(Repaired(st), StorageTrim(st, max), n);
  }

  lemma SurvivorsExistExactly(kept: Storage, r: Storage, n: nat)
    requires TrueSizes(kept) && n <= |kept.index| && r.index == kept.index[n..]
    requires r.files == kept.files - Paths(kept.index[..n])
    requires forall i | 0 <= i < |r.index| :: r.index[i].key in r.sizes
                                              && r.sizes[r.index[i].key] == kept.sizes[r.index[i].key]
    ensures TrueSizes(r) <==> Paths(r.index) !! Paths(kept.index[..n])
  {
    var gone := Paths(kept.index[..n]);
    forall i | 0 <= i < |r.index|
      ensures r.index[i].value in Paths(r.index) && (r.index[i].value in r.files <==> r.index[i].value !in gone)
    {
      assert r.index[i] == kept.index[n + i];
    }
    if !(Paths(r.index) !! gone) {
      var p :| p in Paths(r.index) && p in gone;
      var i :| 0 <= i < |r.index| && r.index[i].value == p;
    }
  }

  /** Two slots with one path of two bytes, and room for three: the trim evicts the elder with the
      file, and the survivor has none. */
  function OneFile(): Storage {
    Storage([Slot("a", "p"), Slot("b", "p")], map["a" := 2, "b" := 2], map["p" := [1, 2]])
  }

  lemma OneFileFacts()
    ensures Consistent(OneFile()) && Existing(OneFile().index, OneFile().files) == OneFile().index
  {
    var st, b := OneFile(), Slot("b", "p");
    assert "a"[0] != "b"[0];
    assert st.index[0].key in KeysOf(st.index) && st.index[1].key in KeysOf(st.index);
    assert st.index[1..] == [b] && [b][1..] == [];
    assert Existing([b], st.files) == [b] + Existing([], st.files);
  }

  lemma {:induction false} OneFileTrimmed()
    ensures StorageTrim(OneFile(), 3).index == [Slot("b", "p")]
  {
    hide Existing, StorageTrim, Sum, Consistent, KeysOf;
    var st := OneFile();
    OneFileFacts();
    var w := Recorded(st.index, RealSizes(st.index, st.files));
    assert w == [2, 2];
    hide RealSizes, Recorded;
    TwoTwos(w);
    StorageTrimIsExact(st, 3);
    var n := 2 - |StorageTrim(st, 3).index|;
    assert StorageSize(StorageTrim(st, 3)) == Sum(w[n..]);
    assert n == 1 && st.index[1..] == [Slot("b", "p")];
  }

  lemma {:induction false} TrimLosesSharedFile()
    ensures Consistent(OneFile()) && StorageTrim(OneFile(), 3).index != [] && !TrueSizes(StorageTrim(OneFile(), 3))
  {
    hide Existing, StorageTrim, Consistent, KeysOf, TrueSizes;
    OneFileFacts();
    OneFileTrimmed();
    TrimmedFilesExistExactly(OneFile(), 3);
    var evicted, kept := OneFile().index[..1], [Slot("b", "p")];
    assert evicted[0].value in Paths(evicted) && kept[0].value in Paths(kept);
  }

  lemma TwoTwos(w: seq<nat>)
    requires w == [2, 2]
    ensures Sum(w[0..]) == 4 && Sum(w[1..]) == 2 && Sum(w[2..]) == 0
  {
    assert w[0..] == w && w[1..] == [2] && [2][1..] == [] && w[2..] == [];
    assert Sum([2]) == 2;
  }

  /** So with a file per key, every put, trim or resize leaves a true index. */
  lemma {:induction false} UnsharedTrimIsTrue(st: Storage, max: nat)
    requires Consistent(st) && UnsharedPaths(st.index)
    ensures TrueSizes(StorageTrim(st, max)) && UnsharedPaths(StorageTrim(st, max).index)
  {
    ExistingUnshared(st.index, st.files);
    TrimmedFilesExistExactly(st, max);
    var n := TrimSplits(st, max);
    UnsharedHalves(Existing(st.index, st.files), n);
  }

  lemma UnsharedHalves(index: seq<Slot<string>>, n: nat)
    requires UnsharedPaths(index) && n <= |index|
    ensures UnsharedPaths(index[n..]) && Paths(index[n..]) !! Paths(index[..n])
  {
    forall p | p in Paths(index[n..]) ensures p !in Paths(index[..n]) {
      var i :| 0 <= i < |index| - n && index[n..][i].value == p;
      assert index[n + i].value == p;
      forall j | 0 <= j < n ensures index[..n][j].value != p {
        assert index[j].value != index[n + i].value;
      }
    }
  }

  lemma {:induction false} ExistingUnshared(index: seq<Slot<string>>, files: map<string, Bytes>)
    requires UnsharedPaths(index)
    ensures UnsharedPaths(Existing(index, files))
  {
    if index != [] {
      ExistingUnshared(index[1..], files);
      var r := Existing(index[1..], files);
      forall j | 0 <= j < |r| ensures r[j].value != index[0].value {
        assert r[j] in index[1..];
      }
    }
  }

  // ---------------------------------------------------------------------------------------
  // The memory tier

  lemma MemoryTrimIsExact(m: seq<Slot<Bytes>>, max: nat)
    ensures var r := MemoryTrim(m, max);
            exists n | 0 <= n <= |m| ::
              && r == m[n..] && Sum(Lengths(r)) <= max
              && (forall k | 0 <= k < n :: Sum(Lengths(m)[k..]) > max)
  {
    var n := Evicted(Lengths(m), max);
    EvictionIsExact(Lengths(m), max);
    LengthsAre(m[n..], Lengths(m)[n..]);
    assert MemoryTrim(m, max) == m[n..];
  }

  lemma {:induction false} MemoryPutFacts(m: seq<Slot<Bytes>>, key: string, value: Bytes, max: int)
    requires DistinctKeys(m)
    ensures DistinctKeys(MemoryPut(m, key, value, max))
    ensures forall s | s in MemoryPut(m, key, value, max) :: (s in m && s.key != key) || s == Slot(key, value)
  {
    SwapFacts(m, key);
    AppendFacts(SwapRemove(m, key), key, value);
    var r := SwapRemove(m, key) + [Slot(key, value)];
    SuffixFacts(r, Evicted(Lengths(r), max));
  }

  // ---------------------------------------------------------------------------------------
  // Recency

  /** The slots are in the order of their last use. */
  ghost predicate InRecencyOrder<V>(m: seq<Slot<V>>, lastUse: map<string, nat>, now: nat) {
    && (forall i | 0 <= i < |m| :: m[i].key in lastUse && lastUse[m[i].key] < now)
    && (forall i, j | 0 <= i < j < |m| :: m[i].key in lastUse && m[j].key in lastUse
                                          && lastUse[m[i].key] < lastUse[m[j].key])
  }

  lemma RemovalKeepsRecency<V>(m: seq<Slot<V>>, lastUse: map<string, nat>, now: nat, key: string)
    requires DistinctKeys(m) && InRecencyOrder(m, lastUse, now)
    ensures InRecencyOrder(ShiftRemove(m, key), lastUse, now)
  {
    hide Without;
    var i := IndexOf(m, key);
    if i < |m| {
      forall j | 0 <= j < |m| - 1 ensures Without(m, i)[j] == m[if j < i then j else j + 1] {
        WithoutAt(m, i, j);
      }
    }
  }

  lemma AppendKeepsRecency<V>(m: seq<Slot<V>>, lastUse: map<string, nat>, now: nat, key: string, value: V)
    requires InRecencyOrder(m, lastUse, now) && key !in KeysOf(m)
    ensures InRecencyOrder(m + [Slot(key, value)], lastUse[key := now], now + 1)
  {
    forall i | 0 <= i < |m| ensures m[i].key != key {
      assert m[i].key in KeysOf(m);
    }
  }

  /** Moving the used key to the end keeps recency order. */
  lemma UseKeepsRecency<V>(m: seq<Slot<V>>, lastUse: map<string, nat>, now: nat, key: string, value: V)
    requires DistinctKeys(m) && InRecencyOrder(m, lastUse, now)
    ensures InRecencyOrder(ShiftRemove(m, key) + [Slot(key, value)], lastUse[key := now], now + 1)
  {
    RemovalFacts(m, key);
    RemovalKeepsRecency(m, lastUse, now, key);
    AppendKeepsRecency(ShiftRemove(m, key), lastUse, now, key, value);
  }

  lemma SuffixKeepsRecency<V>(m: seq<Slot<V>>, lastUse: map<string, nat>, now: nat, n: nat)
    requires InRecencyOrder(m, lastUse, now) && n <= |m|
    ensures InRecencyOrder(m[n..], lastUse, now)
  {
  }

  lemma {:induction false} ExistingKeepsRecency(index: seq<Slot<string>>, files: map<string, Bytes>,
                                                lastUse: map<string, nat>, now: nat)
    requires InRecencyOrder(index, lastUse, now)
    ensures InRecencyOrder(Existing(index, files), lastUse, now)
  {
    hide InRecencyOrder;
    if index != [] {
      SuffixKeepsRecency(index, lastUse, now, 1);
      ExistingKeepsRecency(index[1..], files, lastUse, now);
      TailIsLater(index, lastUse, now);
      var r := Existing(index[1..], files);
      EldestKeepsRecency(index[0], r, lastUse, now);
      assert Existing(index, files) == if index[0].value in files then [index[0]] + r else r;
    }
  }

  lemma TailIsLater<V>(m: seq<Slot<V>>, lastUse: map<string, nat>, now: nat)
    requires m != [] && InRecencyOrder(m, lastUse, now)
    ensures m[0].key in lastUse && lastUse[m[0].key] < now
    ensures forall s | s in m[1..] :: s.key in lastUse && lastUse[m[0].key] < lastUse[s.key]
  {
    forall s | s in m[1..] ensures s.key in lastUse && lastUse[m[0].key] < lastUse[s.key] {
      var k :| 0 <= k < |m[1..]| && m[1..][k] == s;
      assert m[k + 1] == s;
    }
  }

  lemma EldestKeepsRecency<V>(slot: Slot<V>, m: seq<Slot<V>>, lastUse: map<string, nat>, now: nat)
    requires InRecencyOrder(m, lastUse, now) && slot.key in lastUse && lastUse[slot.key] < now
    requires forall s | s in m :: s.key in lastUse && lastUse[slot.key] < lastUse[s.key]
    ensures InRecencyOrder([slot] + m, lastUse, now)
  {
    forall j | 0 <= j < |m| ensures m[j].key in lastUse && lastUse[slot.key] < lastUse[m[j].key] {
      assert m[j] in m;
    }
  }

  /** The key an event uses: a put or restore, or a get that hits. */
  function Used(st: Storage, e: StorageEvent): Option<string> {
    match e
    case Put(key, _, _) => Some(key)
    case Restore(key, _, _) => Some(key)
    case Get(key) => if StorageGet(st, key).1.Some? then Some(key) else None
    case _ => None
  }

  /** Last use of each key after a run, counting events from `now`. */
  ghost function LastUse(st: Storage, run: seq<StorageEvent>, lastUse: map<string, nat>, now: nat): map<string, nat>
    decreases |run|
  {
    if run == [] then lastUse
    else
      var used := Used(st, run[0]);
      LastUse(StorageNext(st, run[0]), run[1..],
              if used.Some? then lastUse[used.value := now] else lastUse, now + 1)
  }

  lemma {:induction false} TrimKeepsRecency(st: Storage, max: int, lastUse: map<string, nat>, now: nat)
    requires Consistent(st) && InRecencyOrder(st.index, lastUse, now)
    ensures InRecencyOrder(StorageTrim(st, max).index, lastUse, now)
  {
    if max >= 0 {
      ExistingKeepsRecency(st.index, st.files, lastUse, now);
      var r := Repaired(st);
      SuffixKeepsRecency(r.index, lastUse, now, Evicted(Recorded(r.index, r.sizes), max));
    }
  }

  lemma {:induction false} IndexedKeepsRecency(st: Storage, key: string, path: string, size: nat,
                                               lastUse: map<string, nat>, now: nat)
    requires Consistent(st) && InRecencyOrder(st.index, lastUse, now)
    ensures InRecencyOrder(Indexed(st, key, path, size).index, lastUse[key := now], now + 1)
  {
    hide InRecencyOrder;
    IndexedKeepsConsistent(st, key, path, size);
    UseKeepsRecency(st.index, lastUse, now, key, path);
  }

  lemma {:induction false} PutKeepsRecency(st: Storage, key: string, path: string, max: int,
                                           lastUse: map<string, nat>, now: nat)
    requires Consistent(st) && InRecencyOrder(st.index, lastUse, now)
    ensures InRecencyOrder(StoragePut(st, key, path, max).index, lastUse[key := now], now + 1)
  {
    hide InRecencyOrder, StorageTrim;
    var size := SafeSize(st.files, path);
    IndexedKeepsConsistent(st, key, path, size);
    IndexedKeepsRecency(st, key, path, size, lastUse, now);
    TrimKeepsRecency(Indexed(st, key, path, size), max, lastUse[key := now], now + 1);
  }

  lemma {:induction false} GetKeepsRecency(st: Storage, key: string, lastUse: map<string, nat>, now: nat)
    requires Consistent(st) && InRecencyOrder(st.index, lastUse, now)
    ensures var (r, hit) := StorageGet(st, key);
            InRecencyOrder(r.index, if hit.Some? then lastUse[key := now] else lastUse, now + 1)
  {
    hide KeysOf;
    TouchFacts(st.index, key);
    var i := IndexOf(st.index, key);
    RemovalKeepsRecency(st.index, lastUse, now, key);
    if i < |st.index| {
      UseKeepsRecency(st.index, lastUse, now, key, st.index[i].value);
    }
  }

  lemma {:induction false} StorageNextKeepsRecency(st: Storage, e: StorageEvent, lastUse: map<string, nat>, now: nat)
    requires Consistent(st) && InRecencyOrder(st.index, lastUse, now)
    ensures var used := Used(st, e);
            InRecencyOrder(StorageNext(st, e).index,
                           if used.Some? then lastUse[used.value := now] else lastUse, now + 1)
  {
    assert DistinctKeys(st.index);
    hide StoragePut, StorageGet, StorageTrim, Indexed, InRecencyOrder, Consistent, DistinctKeys;
    match e {
      case Put(key, path, max) =>
        PutKeepsRecency(st, key, path, max, lastUse, now);
      case Restore(key, path, size) =>
        IndexedKeepsRecency(st, key, path, size, lastUse, now);
      case Get(key) =>
        GetKeepsRecency(st, key, lastUse, now);
      case Remove(key) =>
        RemovalKeepsRecency(st.index, lastUse, now, key);
        LaterIsFine(StorageNext(st, e).index, lastUse, now);
      case Trim(max) =>
        TrimKeepsRecency(st, max, lastUse, now);
        LaterIsFine(StorageNext(st, e).index, lastUse, now);
      case FilesChange(_) =>
        LaterIsFine(st.index, lastUse, now);
    }
  }

  /** Over every run the storage index is in true recency order, so a trim evicts the least
      recently used files. */
  lemma {:induction false} StorageOrderIsRecency(st: Storage, run: seq<StorageEvent>,
                                                 lastUse: map<string, nat>, now: nat)
    requires Consistent(st) && InRecencyOrder(st.index, lastUse, now)
    ensures InRecencyOrder(StorageRun(st, run).index, LastUse(st, run, lastUse, now), now + |run|)
    decreases |run|
  {
    hide Used, StorageNext, InRecencyOrder, Consistent;
    if run != [] {
      var used := Used(st, run[0]);
      StorageNextKeepsConsistent(st, run[0]);
      StorageNextKeepsRecency(st, run[0], lastUse, now);
      StorageOrderIsRecency(StorageNext(st, run[0]), run[1..],
                            if used.Some? then lastUse[used.value := now] else lastUse, now + 1);
    }
  }

  /** The map as `put` leaves it before it trims. */
  function Overwritten(m: seq<Slot<Bytes>>, key: string, value: Bytes): seq<Slot<Bytes>> {
    Insert(SwapRemove(m, key), key, value)
  }

  /** A put over a resident key swaps the youngest slot into its place.  That does no harm when the
      key is one of the two youngest, or not resident at all, or when the trim that ends the put
      evicts past that place. */
  predicate Gentle(m: seq<Slot<Bytes>>, key: string, value: Bytes, max: int) {
    || IndexOf(m, key) + 2 >= |m|
    || Evicted(Lengths(Overwritten(m, key, value)), max) > IndexOf(m, key)
  }

  /** Recency order survives a put exactly when the put is gentle. */
  lemma {:induction false} OverwriteKeepsRecencyExactly(m: seq<Slot<Bytes>>, lastUse: map<string, nat>, now: nat,
                                                        key: string, value: Bytes, max: int)
    requires DistinctKeys(m) && InRecencyOrder(m, lastUse, now)
    ensures InRecencyOrder(MemoryPut(m, key, value, max), lastUse[key := now], now + 1) <==>
            Gentle(m, key, value, max)
  {
    hide InRecencyOrder, DistinctKeys, Lengths, Evicted, Insert, IndexOf;
    var i, r, n := IndexOf(m, key), Overwritten(m, key, value), Evicted(Lengths(Overwritten(m, key, value)), max);
    OverwrittenIs(m, key, value);
    if i + 2 >= |m| {
      assert SwapRemove(m, key) == ShiftRemove(m, key);
      UseKeepsRecency(m, lastUse, now, key, value);
      SuffixKeepsRecency(r, lastUse[key := now], now + 1, n);
    } else if n > i {
      PastTheHole(m, lastUse, now, key, value, n);
    } else {
      SwapBreaksRecency(m, lastUse, now, key, value, n);
    }
  }

  lemma OverwrittenIs(m: seq<Slot<Bytes>>, key: string, value: Bytes)
    requires DistinctKeys(m)
    ensures Overwritten(m, key, value) == SwapRemove(m, key) + [Slot(key, value)]
  {
    SwapFacts(m, key);
    AppendFacts(SwapRemove(m, key), key, value);
  }

  lemma {:induction false} PastTheHole(m: seq<Slot<Bytes>>, lastUse: map<string, nat>, now: nat,
                                       key: string, value: Bytes, n: nat)
    requires DistinctKeys(m) && InRecencyOrder(m, lastUse, now)
    requires IndexOf(m, key) < n <= |m| && IndexOf(m, key) + 2 < |m|
    ensures InRecencyOrder((SwapRemove(m, key) + [Slot(key, value)])[n..], lastUse[key := now], now + 1)
  {
    hide SwapOut;
    var i, last, r := IndexOf(m, key), |m| - 1, SwapRemove(m, key) + [Slot(key, value)];
    if n <= last {
      var young := m[n..last];
      forall j | n <= j < last ensures r[j] == m[j] {
        SwapOutAt(m, i, j);
      }
      assert r[n..] == young + [Slot(key, value)];
      YoungKeepRecency(m, lastUse, now, n, last);
      assert forall j | 0 <= j < |young| :: young[j] == m[n + j] && young[j].key != key;
      hide InRecencyOrder, DistinctKeys, IndexOf, SwapRemove;
      AppendKeepsRecency(young, lastUse, now, key, value);
    }
  }

  lemma YoungKeepRecency<V>(m: seq<Slot<V>>, lastUse: map<string, nat>, now: nat, lo: nat, hi: nat)
    requires InRecencyOrder(m, lastUse, now) && lo <= hi <= |m|
    ensures InRecencyOrder(m[lo..hi], lastUse, now)
  {
  }

  lemma {:induction false} SwapBreaksRecency(m: seq<Slot<Bytes>>, lastUse: map<string, nat>, now: nat,
                                             key: string, value: Bytes, n: nat)
    requires DistinctKeys(m) && InRecencyOrder(m, lastUse, now)
    requires n <= IndexOf(m, key) && IndexOf(m, key) + 2 < |m|
    ensures !InRecencyOrder((SwapRemove(m, key) + [Slot(key, value)])[n..], lastUse[key := now], now + 1)
  {
    hide KeysOf, Insert, SwapOut;
    var i, last, use := IndexOf(m, key), |m| - 1, lastUse[key := now];
    var r := (SwapRemove(m, key) + [Slot(key, value)])[n..];
    SwapOutAt(m, i, i);
    SwapOutAt(m, i, i + 1);
    assert r[i - n] == m[last] && r[i - n + 1] == m[i + 1];
    assert use[m[last].key] == lastUse[m[last].key] && use[m[i + 1].key] == lastUse[m[i + 1].key];
    OutOfOrder(r, use, now + 1, i - n);
  }

  lemma OutOfOrder<V>(m: seq<Slot<V>>, lastUse: map<string, nat>, now: nat, i: nat)
    requires i + 1 < |m| && m[i].key in lastUse && m[i + 1].key in lastUse
    requires lastUse[m[i + 1].key] < lastUse[m[i].key]
    ensures !InRecencyOrder(m, lastUse, now)
  {
  }

  /** Three slots of one byte in use order, with room for three: overwriting the eldest leaves "c"
      before "b". */
  function Three(): seq<Slot<Bytes>> { [Slot("a", [1]), Slot("b", [2]), Slot("c", [3])] }

  lemma ThreeInOrder(lastUse: map<string, nat>)
    requires lastUse == map["a" := 0, "b" := 1, "c" := 2]
    ensures DistinctKeys(Three()) && InRecencyOrder(Three(), lastUse, 3) && IndexOf(Three(), "a") == 0
  {
    assert "a"[0] != "b"[0] && "b"[0] != "c"[0] && "a"[0] != "c"[0];
  }

  lemma {:induction false} OverwriteBreaksRecency()
    ensures var lastUse := map["a" := 0, "b" := 1, "c" := 2];
            && DistinctKeys(Three()) && InRecencyOrder(Three(), lastUse, 3)
            && !InRecencyOrder(MemoryPut(Three(), "a", [9], 3), lastUse["a" := 3], 4)
  {
    hide InRecencyOrder, DistinctKeys, Evicted, Sum, IndexOf;
    var m, lastUse := Three(), map["a" := 0, "b" := 1, "c" := 2];
    ThreeInOrder(lastUse);
    OverwrittenIs(m, "a", [9]);
    var r := Overwritten(m, "a", [9]);
    assert r == [m[2], m[1], Slot("a", [9])];
    LengthsAre(r, [1, 1, 1]);
    ThreeOnes();
    OverwriteKeepsRecencyExactly(m, lastUse, 3, "a", [9], 3);
  }

  lemma ThreeOnes()
    ensures Evicted([1, 1, 1], 3) == 0
  {
    assert [1, 1, 1][1..] == [1, 1] && [1, 1][1..] == [1] && [1][1..] == [];
    assert Sum([1, 1, 1]) == 1 + Sum([1, 1]) && Sum([1, 1]) == 1 + Sum([1]) && Sum([1]) == 1;
  }

  datatype MemoryEvent =
    | MemPut(key: string, value: Bytes, max: int)
    | MemGet(key: string)
    | MemRemove(key: string)
    | MemTrim(max: int)
    | MemClear

  function MemoryNext(m: seq<Slot<Bytes>>, e: MemoryEvent): seq<Slot<Bytes>> {
    match e
    case MemPut(key, value, max) => MemoryPut(m, key, value, max)
    case MemGet(key) => Touch(m, key)
    case MemRemove(key) => ShiftRemove(m, key)
    case MemTrim(max) => MemoryTrim(m, max)
    case MemClear => []
  }

  function MemoryUsed(m: seq<Slot<Bytes>>, e: MemoryEvent): Option<string> {
    match e
    case MemPut(key, _, _) => Some(key)
    case MemGet(key) => if IndexOf(m, key) < |m| then Some(key) else None
    case _ => None
  }

  function MemoryRun(m: seq<Slot<Bytes>>, run: seq<MemoryEvent>): seq<Slot<Bytes>>
    decreases |run|
  {
    if run == [] then m else MemoryRun(MemoryNext(m, run[0]), run[1..])
  }

  ghost function MemoryLastUse(m: seq<Slot<Bytes>>, run: seq<MemoryEvent>, lastUse: map<string, nat>,
                               now: nat): map<string, nat>
    decreases |run|
  {
    if run == [] then lastUse
    else
      var used := MemoryUsed(m, run[0]);
      MemoryLastUse(MemoryNext(m, run[0]), run[1..],
                    if used.Some? then lastUse[used.value := now] else lastUse, now + 1)
  }

  /** Every put of the run is gentle. */
  ghost predicate GentlePuts(m: seq<Slot<Bytes>>, run: seq<MemoryEvent>)
    decreases |run|
  {
    run == [] || (GentleEvent(m, run[0]) && GentlePuts(MemoryNext(m, run[0]), run[1..]))
  }

  predicate GentleEvent(m: seq<Slot<Bytes>>, e: MemoryEvent) {
    e.MemPut? ==> Gentle(m, e.key, e.value, e.max)
  }

  /** The order is recency order now and after each event of the run. */
  ghost predicate OrderedThroughout(m: seq<Slot<Bytes>>, run: seq<MemoryEvent>, lastUse: map<string, nat>, now: nat)
    decreases |run|
  {
    && InRecencyOrder(m, lastUse, now)
    && (run == [] ||
        var used := MemoryUsed(m, run[0]);
        OrderedThroughout(MemoryNext(m, run[0]), run[1..],
                          if used.Some? then lastUse[used.value := now] else lastUse, now + 1))
  }

  lemma {:induction false} TouchKeepsRecency<V>(m: seq<Slot<V>>, key: string, lastUse: map<string, nat>, now: nat)
    requires DistinctKeys(m) && InRecencyOrder(m, lastUse, now) && IndexOf(m, key) < |m|
    ensures InRecencyOrder(Touch(m, key), lastUse[key := now], now + 1)
  {
    TouchFacts(m, key);
    UseKeepsRecency(m, lastUse, now, key, m[IndexOf(m, key)].value);
  }

  lemma LaterIsFine<V>(m: seq<Slot<V>>, lastUse: map<string, nat>, now: nat)
    requires InRecencyOrder(m, lastUse, now)
    ensures InRecencyOrder(m, lastUse, now + 1)
  {
  }

  lemma {:induction false} MemoryNextDistinct(m: seq<Slot<Bytes>>, e: MemoryEvent)
    requires DistinctKeys(m)
    ensures DistinctKeys(MemoryNext(m, e))
  {
    match e {
      case MemPut(key, value, max) => MemoryPutFacts(m, key, value, max);
      case MemGet(key) => TouchFacts(m, key);
      case MemRemove(key) => RemovalFacts(m, key);
      case MemTrim(max) => SuffixFacts(m, Evicted(Lengths(m), max));
      case MemClear =>
    }
  }

  lemma {:induction false} MemoryNextKeepsRecency(m: seq<Slot<Bytes>>, e: MemoryEvent, lastUse: map<string, nat>, now: nat)
    requires DistinctKeys(m) && InRecencyOrder(m, lastUse, now)
    ensures var used := MemoryUsed(m, e);
            InRecencyOrder(MemoryNext(m, e), if used.Some? then lastUse[used.value := now] else lastUse, now + 1)
            <==> GentleEvent(m, e)
  {
    hide InRecencyOrder, MemoryPut, ShiftRemove, Insert, Gentle;
    match e {
      case MemPut(key, value, max) => OverwriteKeepsRecencyExactly(m, lastUse, now, key, value, max);
      case MemGet(key) =>
        if IndexOf(m, key) < |m| {
          TouchKeepsRecency(m, key, lastUse, now);
        } else {
          LaterIsFine(m, lastUse, now);
        }
      case MemRemove(key) =>
        RemovalKeepsRecency(m, lastUse, now, key);
        LaterIsFine(ShiftRemove(m, key), lastUse, now);
      case MemTrim(max) =>
        SuffixKeepsRecency(m, lastUse, now, Evicted(Lengths(m), max));
        LaterIsFine(MemoryTrim(m, max), lastUse, now);
      case MemClear =>
        SuffixKeepsRecency(m, lastUse, now, |m|);
        assert m[|m|..] == [];
        LaterIsFine<Bytes>([], lastUse, now);
    }
  }

  /** The memory order is true recency order throughout a run exactly when every put of it is
      gentle; promotion from storage, which only follows a miss, always is. */
  lemma {:induction false} MemoryOrderIsRecency(m: seq<Slot<Bytes>>, run: seq<MemoryEvent>,
                                                lastUse: map<string, nat>, now: nat)
    requires DistinctKeys(m) && InRecencyOrder(m, lastUse, now)
    ensures OrderedThroughout(m, run, lastUse, now) <==> GentlePuts(m, run)
    decreases |run|
  {
    hide MemoryNext, MemoryUsed, InRecencyOrder, DistinctKeys, GentleEvent;
    if run != [] {
      var used := MemoryUsed(m, run[0]);
      MemoryNextDistinct(m, run[0]);
      MemoryNextKeepsRecency(m, run[0], lastUse, now);
      if GentleEvent(m, run[0]) {
        MemoryOrderIsRecency(MemoryNext(m, run[0]), run[1..],
                             if used.Some? then lastUse[used.value := now] else lastUse, now + 1);
      }
    }
  }
}
