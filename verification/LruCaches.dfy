/** The cache tiers as the source keeps them: objects whose fields every operation updates. */
module LruCaches {
  import opened Wrappers
  import opened LruSpec
  import opened LruFacts

  class LruCacheMemory {
    var map_: seq<Slot<Bytes>>
    var size: int
    var maxSize: int

    /** `size` is the sum of the resident lengths, so it never turns negative. */
    ghost predicate Valid()
      reads this
    {
      DistinctKeys(map_) && size == Sum(Lengths(map_))
    }

    constructor (maxSize: int)
      requires maxSize > 0
      ensures Valid() && map_ == [] && this.maxSize == maxSize
    {
      map_, size, this.maxSize := [], 0, maxSize;
    }

    method Get(key: string) returns (value: Option<Bytes>)
      requires Valid() && key != ""
      modifies this`map_
      ensures Valid() && map_ == Touch(old(map_), key) && value == Lookup(old(map_), key)
      ensures map_ == MemoryNext(old(map_), MemGet(key))
    {
      var i := IndexOf(map_, key);
      if i == |map_| {
        return None;
      }
      value := Some(map_[i].value);
      TouchFacts(map_, key);
      TouchKeepsSum(map_, key);
      map_ := Insert(ShiftRemove(map_, key), key, map_[i].value);
    }

    method Put(key: string, value: Bytes) returns (previous: Option<Bytes>)
      requires Valid() && key != ""
      modifies this`map_, this`size
      ensures Valid() && map_ == MemoryPut(old(map_), key, value, maxSize)
      ensures map_ == MemoryNext(old(map_), MemPut(key, value, maxSize))
      ensures previous == Lookup(old(map_), key)
      ensures maxSize >= 0 ==> size <= maxSize
    {
      size := size + |value|;
      previous := Lookup(map_, key);
      SwapFacts(map_, key);
      AppendFacts(SwapRemove(map_, key), key, value);
      ReplaceInSum(map_, key, value);
      map_ := Insert(SwapRemove(map_, key), key, value);
      if previous.Some? {
        size := size - |previous.value|;
      }
      TrimToSizeLocked(maxSize);
    }

    method Remove(key: string) returns (previous: Option<Bytes>)
      requires Valid() && key != ""
      modifies this`map_, this`size
      ensures Valid() && map_ == ShiftRemove(old(map_), key) && previous == Lookup(old(map_), key)
      ensures map_ == MemoryNext(old(map_), MemRemove(key))
    {
      previous := Lookup(map_, key);
      RemovalFacts(map_, key);
      RemoveFromSum(map_, key);
      map_ := ShiftRemove(map_, key);
      if previous.Some? {
        size := size - |previous.value|;
      }
    }

    /** The panic on a negative size is the assertion. */
    method TrimToSizeLocked(max: int)
      requires Valid()
      modifies this`map_, this`size
      ensures Valid() && map_ == MemoryTrim(old(map_), max) && (max >= 0 ==> size <= max)
    {
      while true
        invariant Valid()
        invariant MemoryTrim(map_, max) == MemoryTrim(old(map_), max)
        decreases |map_|
      {
        assert size >= 0;
        if size <= max {
          break;
        }
        if map_ == [] {
          break;
        }
        var eldest := map_[0];
        TrimOnce(map_, max);
        SuffixFacts(map_, 1);
        map_ := map_[1..];
        size := size - |eldest.value|;
      }
      assert map_ == MemoryTrim(map_, max);
    }

    method TrimToSize(max: int)
      requires Valid()
      modifies this`map_, this`size
      ensures Valid() && map_ == (if max < 0 then [] else MemoryTrim(old(map_), max))
      ensures map_ == MemoryNext(old(map_), if max < 0 then MemClear else MemTrim(max))
      ensures max >= 0 ==> size <= max
    {
      if max < 0 {
        map_ := [];
        size := 0;
        return;
      }
      TrimToSizeLocked(max);
    }

    method Resize(max: int)
      requires Valid() && max > 0
      modifies this
      ensures Valid() && maxSize == max && map_ == MemoryTrim(old(map_), max) && size <= max
    {
      maxSize := max;
      TrimToSize(max);
    }
  }

  lemma TouchKeepsSum(m: seq<Slot<Bytes>>, key: string)
    requires DistinctKeys(m)
    ensures Sum(Lengths(Touch(m, key))) == Sum(Lengths(m))
  {
    hide KeysOf, Without;
    var i := IndexOf(m, key);
    if i < |m| {
      assert Sum([|m[i].value|]) == |m[i].value|;
      hide Sum;
      TouchFacts(m, key);
      RemoveFromSum(m, key);
      var r := ShiftRemove(m, key);
      LengthsAre(r + [Slot(key, m[i].value)], Lengths(r) + [|m[i].value|]);
      SumOfJoin(Lengths(r), [|m[i].value|]);
    }
  }

  lemma RemoveFromSum(m: seq<Slot<Bytes>>, key: string)
    requires DistinctKeys(m)
    ensures Sum(Lengths(ShiftRemove(m, key))) ==
            Sum(Lengths(m)) - if Lookup(m, key).Some? then |Lookup(m, key).value| else 0
  {
    hide Without, KeysOf, DistinctKeys;
    var i, w := IndexOf(m, key), Lengths(m);
    if i < |m| {
      forall j | 0 <= j < |m| - 1 ensures Without(w, i)[j] == |Without(m, i)[j].value| {
        WithoutAt(m, i, j);
        WithoutAt(w, i, j);
      }
      LengthsAre(Without(m, i), Without(w, i));
      SumWithout(w, i);
    }
  }

  lemma LengthsOfJoin(a: seq<Slot<Bytes>>, b: seq<Slot<Bytes>>)
    ensures Lengths(a + b) == Lengths(a) + Lengths(b)
  {
    LengthsAre(a + b, Lengths(a) + Lengths(b));
  }

  lemma SwapFromSum(m: seq<Slot<Bytes>>, key: string)
    requires DistinctKeys(m)
    ensures Sum(Lengths(SwapRemove(m, key))) ==
            Sum(Lengths(m)) - if Lookup(m, key).Some? then |Lookup(m, key).value| else 0
  {
    hide SwapOut, KeysOf, DistinctKeys;
    var i, w := IndexOf(m, key), Lengths(m);
    if i < |m| {
      forall j | 0 <= j < |m| - 1 ensures SwapOut(w, i)[j] == |SwapOut(m, i)[j].value| {
        SwapOutAt(m, i, j);
        SwapOutAt(w, i, j);
      }
      LengthsAre(SwapOut(m, i), SwapOut(w, i));
      SwapOutOfSum(w, i);
    }
  }

  lemma ReplaceInSum(m: seq<Slot<Bytes>>, key: string, value: Bytes)
    requires DistinctKeys(m)
    ensures Sum(Lengths(Insert(SwapRemove(m, key), key, value))) ==
            Sum(Lengths(m)) + |value| - if Lookup(m, key).Some? then |Lookup(m, key).value| else 0
  {
    hide SwapRemove, KeysOf;
    var r := SwapRemove(m, key);
    SwapFacts(m, key);
    AppendFacts(r, key, value);
    SwapFromSum(m, key);
    LengthsOfJoin(r, [Slot(key, value)]);
    LengthsAre([Slot(key, value)], [|value|]);
    SumOfJoin(Lengths(r), [|value|]);
  }

  lemma SwapOutOfTail(w: seq<nat>, i: nat)
    requires 0 < i < |w|
    ensures SwapOut(w, i) == [w[0]] + SwapOut(w[1..], i - 1)
  {
    var a, b := SwapOut(w, i), [w[0]] + SwapOut(w[1..], i - 1);
    forall j | 0 <= j < |a| ensures a[j] == b[j] {
      SwapOutAt(w, i, j);
      if j > 0 {
        SwapOutAt(w[1..], i - 1, j - 1);
      }
    }
  }

  lemma {:induction false} SwapOutOfSum(w: seq<nat>, i: nat)
    requires i < |w|
    ensures Sum(SwapOut(w, i)) == Sum(w) - w[i]
  {
    var last := |w| - 1;
    if i > 0 {
      SwapOutOfSum(w[1..], i - 1);
      SwapOutOfTail(w, i);
      SumOfJoin([w[0]], SwapOut(w[1..], i - 1));
    } else if last > 0 {
      var middle := w[1..last];
      assert SwapOut(w, 0) == [w[last]] + middle;
      SumOfJoin([w[last]], middle);
      assert w[1..] == middle + [w[last]];
      SumOfJoin(middle, [w[last]]);
    }
  }

  lemma TrimOnce(m: seq<Slot<Bytes>>, max: int)
    requires m != [] && Sum(Lengths(m)) > max
    ensures MemoryTrim(m[1..], max) == MemoryTrim(m, max)
    ensures Sum(Lengths(m[1..])) == Sum(Lengths(m)) - |m[0].value|
  {
    LengthsOfTail(m);
    EvictedOnce(Lengths(m), max);
    hide Lengths, Evicted, Sum;
    DropMore(m, Evicted(Lengths(m[1..]), max));
  }

  lemma LengthsOfTail(m: seq<Slot<Bytes>>)
    requires m != []
    ensures Lengths(m)[1..] == Lengths(m[1..])
  {
    assert Lengths(m) == [|m[0].value|] + Lengths(m[1..]);
  }

  lemma DropMore<T>(s: seq<T>, n: nat)
    requires n + 1 <= |s|
    ensures s[1..][n..] == s[n + 1..]
  {
  }

  lemma EvictedOnce(w: seq<nat>, max: int)
    requires w != [] && Sum(w) > max
    ensures Evicted(w, max) == Evicted(w[1..], max) + 1 && Sum(w) == w[0] + Sum(w[1..])
  {
  }

  /** Files on disk; anything else may add or delete files between cache operations. */
  class FileSystem {
    var files: map<string, Bytes>

    constructor ()
      ensures files == map[]
    {
      files := map[];
    }
  }

  class LruCacheStorage {
    const disk: FileSystem
    var index: seq<Slot<string>>
    var entrySizes: map<string, nat>
    var size: int
    var maxSize: int

    function State(): Storage
      reads this, disk
    {
      Storage(index, entrySizes, disk.files)
    }

    ghost predicate Valid()
      reads this, disk
    {
      Consistent(State()) && size == StorageSize(State())
    }

    constructor (disk: FileSystem, maxSize: int)
      requires maxSize > 0
      ensures Valid() && this.disk == disk && index == [] && this.maxSize == maxSize
    {
      this.disk := disk;
      index, entrySizes, size, this.maxSize := [], map[], 0, maxSize;
    }

    /** remove_entry_locked.  The clamp to zero is dead: `size` never goes below the sum. */
    method RemoveEntry(key: string, deleteFile: bool) returns (path: Option<string>)
      requires Valid()
      modifies this`index, this`entrySizes, this`size, disk
      ensures Valid() && State() == LruSpec.RemoveEntry(old(State()), key, deleteFile)
      ensures path == Lookup(old(index), key)
    {
      var i := IndexOf(index, key);
      if i == |index| {
        return None;
      }
      RemoveKeepsConsistent(State(), key, deleteFile);
      RemoveTakesItsSize(State(), key, deleteFile);
      hide Without, KeysOf, DistinctKeys, Recorded, Sum;
      var found := index[i].value;
      index := ShiftRemove(index, key);
      var removedSize := if key in entrySizes then entrySizes[key] else 0;
      entrySizes := entrySizes - {key};
      size := if size - removedSize < 0 then 0 else size - removedSize;
      if deleteFile && found in disk.files {
        disk.files := disk.files - {found};
      }
      return Some(found);
    }

    /** repair_size_locked: one pass over a snapshot of the index, then the missing keys. */
    method RepairSize()
      requires Valid()
      modifies this`index, this`entrySizes, this`size
      ensures Valid() && State() == Repaired(old(State()))
    {
      RepairKeepsConsistent(State());
      assert DistinctKeys(index);
      hide DistinctKeys, Repaired, Existing, RealSizes, KeysOf, Sum;
      var kept, measured, recalculated := MeasureFiles(index, disk.files);
      MeasuredAll(State(), kept, measured, recalculated);
      index, entrySizes, size := kept, measured, recalculated;
    }

    method TrimToSizeLocked(max: int)
      requires Valid()
      modifies this`index, this`entrySizes, this`size, disk
      ensures Valid() && State() == StorageTrim(old(State()), max)
      ensures State() == StorageNext(old(State()), Trim(max))
      ensures max >= 0 ==> size <= max
    {
      if max < 0 {
        EvictAll();
      } else {
        RepairSize();
        EvictWhileOver(max);
      }
    }

    /** The eviction loop of a trim. */
    method EvictWhileOver(max: int)
      requires Valid() && max >= 0
      modifies this`index, this`entrySizes, this`size, disk
      ensures Valid() && size <= max
      ensures State() == EvictFront(old(State()), Evicted(Recorded(old(index), old(entrySizes)), max))
    {
      ghost var st, n := State(), 0;
      EvictNothing(st);
      TrimStarts(st, max);
      while size > max
        invariant Valid() && n <= |st.index|
        invariant State() == EvictFront(st, n) && TrimProgress(st, max, n)
        decreases |index|
      {
        TrimNext(st, max, n);   // a positive size has a slot behind it
        var key := index[0].key;
        var _ := RemoveEntry(key, true);
        n := n + 1;
      }
      TrimEnds(st, max, n);
    }

    /** The branch of a trim to a negative size. */
    method EvictAll()
      requires Valid()
      modifies this`index, this`entrySizes, this`size, disk
      ensures Valid() && State() == EvictFront(old(State()), |old(index)|)
    {
      ghost var st := State();
      var keys := index;
      EvictNothing(st);
      var n := 0;
      while n < |keys|
        invariant Valid()
        invariant 0 <= n <= |keys| && State() == EvictFront(st, n)
      {
        EvictOneMore(st, n);
        var _ := RemoveEntry(keys[n].key, true);
        n := n + 1;
      }
    }

    method Get(key: string) returns (path: Option<string>)
      requires Valid() && key != ""
      modifies this`index, this`entrySizes, this`size, disk
      ensures Valid() && (State(), path) == StorageGet(old(State()), key)
    {
      hide Without, Recorded, Sum, KeysOf, DistinctKeys, LruSpec.RemoveEntry, Insert, ShiftRemove;
      TouchFacts(index, key);
      TouchKeepsRecorded(State(), key);
      var i := IndexOf(index, key);
      if i < |index| {
        var found := index[i].value;
        if found in disk.files {
          index := Insert(ShiftRemove(index, key), key, found);
          return Some(found);
        }
        var _ := RemoveEntry(key, false);
      }
      return None;
    }

    method Put(key: string, path: string)
      requires Valid() && key != ""
      modifies this`index, this`entrySizes, this`size, disk
      ensures Valid() && State() == StoragePut(old(State()), key, path, maxSize)
      ensures State() == StorageNext(old(State()), StorageEvent.Put(key, path, maxSize))
      ensures maxSize >= 0 ==> size <= maxSize
    {
      var valueSize := SafeSize(disk.files, path);
      AddYoungest(key, path, valueSize);
      TrimToSizeLocked(maxSize);
    }

    method Restore(key: string, path: string, valueSize: nat)
      requires Valid() && key != ""
      modifies this`index, this`entrySizes, this`size, disk
      ensures Valid() && State() == Indexed(old(State()), key, path, valueSize)
      ensures State() == StorageNext(old(State()), StorageEvent.Restore(key, path, valueSize))
    {
      AddYoungest(key, path, valueSize);
    }

    /** What put and restore share. */
    method AddYoungest(key: string, path: string, valueSize: nat)
      requires Valid()
      modifies this`index, this`entrySizes, this`size, disk
      ensures Valid() && State() == Indexed(old(State()), key, path, valueSize)
    {
      IndexedKeepsConsistent(State(), key, path, valueSize);
      RemoveTakesItsSize(State(), key, false);
      var _ := RemoveEntry(key, false);
      size := size + valueSize;
      entrySizes := entrySizes[key := valueSize];
      index := Insert(index, key, path);
    }

    method Remove(key: string) returns (path: Option<string>)
      requires Valid() && key != ""
      modifies this`index, this`entrySizes, this`size, disk
      ensures Valid() && State() == LruSpec.RemoveEntry(old(State()), key, true)
      ensures State() == StorageNext(old(State()), StorageEvent.Remove(key))
      ensures path == Lookup(old(index), key)
    {
      path := RemoveEntry(key, true);
    }

    method Resize(max: int)
      requires Valid() && max > 0
      modifies this, disk
      ensures Valid() && maxSize == max && State() == StorageTrim(old(State()), max) && size <= max
    {
      maxSize := max;
      TrimToSizeLocked(max);
    }
  }

  lemma FreshKey(index: seq<Slot<string>>, k: nat, files: map<string, Bytes>)
    requires DistinctKeys(index) && k < |index|
    ensures index[k].key !in KeysOf(Existing(index[..k], files))
  {
    var r := Existing(index[..k], files);
    forall j | 0 <= j < |r| ensures r[j].key != index[k].key {
      assert r[j] in index[..k];
    }
  }

  lemma IndexOfAppended(kept: seq<Slot<string>>, slot: Slot<string>, k: string)
    requires DistinctKeys(kept + [slot]) && k in KeysOf(kept + [slot])
    ensures IndexOf(kept + [slot], k) == if k == slot.key then |kept| else IndexOf(kept, k)
    ensures k == slot.key || IndexOf(kept, k) < |kept|
  {
    var r := kept + [slot];
    var i :| 0 <= i < |r| && r[i].key == k;
    IndexOfSlot(r, i);
    if i < |kept| {
      assert kept[i].key in KeysOf(kept);
      var j := IndexOf(kept, k);
      assert r[j] == kept[j];
      IndexOfSlot(r, j);
      assert r[i].key != r[|kept|].key;
    }
  }

  lemma RealSizesOfAppend(kept: seq<Slot<string>>, slot: Slot<string>, files: map<string, Bytes>)
    requires DistinctKeys(kept + [slot]) && KeysOf(kept + [slot]) == KeysOf(kept) + {slot.key}
    requires forall s | s in kept + [slot] :: s.value in files
    ensures RealSizes(kept + [slot], files) == RealSizes(kept, files)[slot.key := |files[slot.value]|]
  {
    hide RealSizes, KeysOf, DistinctKeys, IndexOf;
    assert forall s | s in kept :: s in kept + [slot];
    RealSizesCover(kept, files);
    RealSizesCover(kept + [slot], files);
    forall k | k in KeysOf(kept + [slot])
      ensures RealSizes(kept + [slot], files)[k] == RealSizes(kept, files)[slot.key := |files[slot.value]|][k]
    {
      IndexOfAppended(kept, slot, k);
      RealSizeAt(kept + [slot], files, k);
      if k != slot.key {
        RealSizeAt(kept, files, k);
      }
    }
  }

  lemma RealSizesCover(index: seq<Slot<string>>, files: map<string, Bytes>)
    requires forall s | s in index :: s.value in files
    ensures RealSizes(index, files).Keys == KeysOf(index)
  {
  }

  lemma RealSizeAt(index: seq<Slot<string>>, files: map<string, Bytes>, k: string)
    requires (forall s | s in index :: s.value in files) && k in KeysOf(index)
    ensures IndexOf(index, k) < |index| && k in RealSizes(index, files)
    ensures index[IndexOf(index, k)] in index && RealSizes(index, files)[k] == |files[index[IndexOf(index, k)].value]|
  {
  }

  lemma {:induction false} MeasureOneMore(kept: seq<Slot<string>>, slot: Slot<string>, files: map<string, Bytes>)
    requires DistinctKeys(kept) && slot.key !in KeysOf(kept) && slot.value in files
    requires forall s | s in kept :: s.value in files
    ensures DistinctKeys(kept + [slot]) && forall s | s in kept + [slot] :: s.value in files
    ensures RealSizes(kept + [slot], files) == RealSizes(kept, files)[slot.key := |files[slot.value]|]
    ensures Sum(Recorded(kept + [slot], RealSizes(kept + [slot], files))) ==
            Sum(Recorded(kept, RealSizes(kept, files))) + |files[slot.value]|
  {
    hide RealSizes, Recorded, KeysOf, DistinctKeys, Insert, IndexOf, Sum;
    assert slot == Slot(slot.key, slot.value);
    AppendFacts(kept, slot.key, slot.value);
    RealSizesOfAppend(kept, slot, files);
    RecordedAfterAppend(kept, RealSizes(kept, files), slot.key, slot.value, |files[slot.value]|);
    SumOfMore(Recorded(kept, RealSizes(kept, files)), |files[slot.value]|);
  }

  lemma SumOfMore(w: seq<nat>, x: nat)
    ensures Sum(w + [x]) == Sum(w) + x
  {
    SumOfJoin(w, [x]);
  }

  /** The pass of repair_size_locked over a snapshot of the index. */
  method MeasureFiles(entries: seq<Slot<string>>, files: map<string, Bytes>)
    returns (kept: seq<Slot<string>>, measured: map<string, nat>, recalculated: nat)
    requires DistinctKeys(entries)
    ensures Measured(entries, files, kept, measured, recalculated)
  {
    hide Measured, RealSizes, KeysOf;
    MeasureNothing(files);
    kept, measured, recalculated := [], map[], 0;
    assert entries[..0] == [];
    for k := 0 to |entries|
      invariant Measured(entries[..k], files, kept, measured, recalculated)
    {
      var slot := entries[k];
      MeasureNext(entries, k, files, kept, measured, recalculated);
      if slot.value in files {
        kept := kept + [slot];
        measured := measured[slot.key := |files[slot.value]|];
        recalculated := recalculated + |files[slot.value]|;
      }
    }
    assert entries[..|entries|] == entries;
  }

  /** What the repair pass knows after a prefix of the index. */
  ghost predicate Measured(done: seq<Slot<string>>, files: map<string, Bytes>,
                           kept: seq<Slot<string>>, measured: map<string, nat>, recalculated: nat)
  {
    && kept == Existing(done, files) && DistinctKeys(kept)
    && measured == RealSizes(kept, files) && recalculated == Sum(Recorded(kept, measured))
  }

  lemma MeasureNothing(files: map<string, Bytes>)
    ensures Measured([], files, [], map[], 0)
  {
    assert RealSizes([], files) == map[];
  }

  lemma MeasuredAll(st: Storage, kept: seq<Slot<string>>, measured: map<string, nat>, recalculated: nat)
    requires Measured(st.index, st.files, kept, measured, recalculated)
    ensures Repaired(st) == Storage(kept, measured, st.files) && StorageSize(Repaired(st)) == recalculated
  {
  }

  lemma MeasureNext(index: seq<Slot<string>>, k: nat, files: map<string, Bytes>,
                    kept: seq<Slot<string>>, measured: map<string, nat>, recalculated: nat)
    requires DistinctKeys(index) && k < |index| && Measured(index[..k], files, kept, measured, recalculated)
    ensures index[k].value !in files ==> Measured(index[..k + 1], files, kept, measured, recalculated)
    ensures index[k].value in files ==>
              Measured(index[..k + 1], files, kept + [index[k]],
                       measured[index[k].key := |files[index[k].value]|], recalculated + |files[index[k].value]|)
  {
    assert index[..k + 1] == index[..k] + [index[k]];
    ExistingOfJoin(index[..k], index[k], files);
    if index[k].value in files {
      FreshKey(index, k, files);
      MeasureOneMore(kept, index[k], files);
    }
  }

  /** The eviction loop is on its way to the `n` that Evicted computes. */
  ghost predicate TrimProgress(st: Storage, max: int, n: nat) {
    var w := Recorded(st.index, st.sizes);
    n <= |w| && Evicted(w, max) == n + Evicted(w[n..], max)
  }

  lemma TrimStarts(st: Storage, max: int)
    ensures TrimProgress(st, max, 0)
  {
    assert Recorded(st.index, st.sizes)[0..] == Recorded(st.index, st.sizes);
  }

  lemma {:induction false} TrimNext(st: Storage, max: int, n: nat)
    requires Consistent(st) && max >= 0 && n <= |st.index| && TrimProgress(st, max, n)
    requires StorageSize(EvictFront(st, n)) > max
    ensures n < |st.index| && TrimProgress(st, max, n + 1)
    ensures EvictFront(st, n).index != [] && EvictFront(st, n).index[0].key == st.index[n].key
    ensures RemoveEntry(EvictFront(st, n), st.index[n].key, true) == EvictFront(st, n + 1)
  {
    var w := Recorded(st.index, st.sizes);
    EvictKeepsConsistent(st, n);
    assert w[n..] != [];
    assert w[n..][1..] == w[n + 1..];
    EvictOneMore(st, n);
  }

  lemma {:induction false} TrimEnds(st: Storage, max: int, n: nat)
    requires Consistent(st) && n <= |st.index| && TrimProgress(st, max, n)
    requires StorageSize(EvictFront(st, n)) <= max
    ensures n == Evicted(Recorded(st.index, st.sizes), max)
  {
    EvictKeepsConsistent(st, n);
  }

  lemma EvictNothing(st: Storage)
    ensures EvictFront(st, 0) == st
  {
    assert st.index[..0] == [];
    assert KeysOf<string>([]) == {} && Paths([]) == {};
  }

  lemma MinusOneMore<K, V>(m: map<K, V>, a: set<K>, k: K)
    ensures (m - a) - {k} == m - (a + {k})
  {
  }

  /** Removing the eldest slot with its file is one more eviction. */
  lemma {:induction false} EvictOneMore(st: Storage, n: nat)
    requires Consistent(st) && n < |st.index|
    ensures EvictFront(st, n).index[0] == st.index[n]
    ensures RemoveEntry(EvictFront(st, n), st.index[n].key, true) == EvictFront(st, n + 1)
  {
    SuffixFacts(st.index, n);
    KeysOfNext(st.index, n);
    RemoveEldest(EvictFront(st, n));
    MinusOneMore(st.sizes, KeysOf(st.index[..n]), st.index[n].key);
    MinusOneMore(st.files, Paths(st.index[..n]), st.index[n].value);
    hide KeysOf, Paths, RemoveEntry, DistinctKeys, Consistent;
    assert st.index[n..][1..] == st.index[n + 1..];
  }

  lemma RemoveEldest(st: Storage)
    requires DistinctKeys(st.index) && st.index != []
    ensures RemoveEntry(st, st.index[0].key, true) ==
            Storage(st.index[1..], st.sizes - {st.index[0].key}, st.files - {st.index[0].value})
  {
    IndexOfSlot(st.index, 0);
    assert Without(st.index, 0) == st.index[1..];
  }

  lemma KeysOfNext(index: seq<Slot<string>>, n: nat)
    requires n < |index|
    ensures KeysOf(index[..n + 1]) == KeysOf(index[..n]) + {index[n].key}
    ensures Paths(index[..n + 1]) == Paths(index[..n]) + {index[n].value}
  {
    var a, b := index[..n], index[..n + 1];
    assert b[n] == index[n];
    forall i | 0 <= i < n ensures a[i] == b[i] {
    }
    forall k | k in KeysOf(a) ensures k in KeysOf(b) {
      var i :| 0 <= i < n && a[i].key == k;
      assert b[i].key == k;
    }
    forall p | p in Paths(a) ensures p in Paths(b) {
      var i :| 0 <= i < n && a[i].value == p;
      assert b[i].value == p;
    }
  }

  lemma TouchKeepsRecorded(st: Storage, key: string)
    requires Consistent(st)
    ensures Sum(Recorded(Touch(st.index, key), st.sizes)) == StorageSize(st)
  {
    var i := IndexOf(st.index, key);
    TouchFacts(st.index, key);
    if i < |st.index| {
      RemovalFacts(st.index, key);
      RemoveTakesItsSize(st, key, false);
      RestoreRecorded(ShiftRemove(st.index, key), st.sizes, key, st.index[i].value);
    }
  }

  lemma RestoreRecorded(r: seq<Slot<string>>, sizes: map<string, nat>, key: string, path: string)
    requires key !in KeysOf(r) && key in sizes
    ensures Sum(Recorded(r + [Slot(key, path)], sizes)) == Sum(Recorded(r, sizes - {key})) + sizes[key]
  {
    RecordedAfterAppend(r, sizes - {key}, key, path, sizes[key]);
    assert (sizes - {key})[key := sizes[key]] == sizes;
    SumOfJoin(Recorded(r, sizes - {key}), [sizes[key]]);
  }
}
