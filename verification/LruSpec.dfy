/** Both cache tiers as values.  An IndexMap is the sequence of its slots in order; the eldest
    slot comes first. */
module LruSpec {
  import opened Wrappers

  datatype Slot<V> = Slot(key: string, value: V)

  // ---------------------------------------------------------------------------------------
  // IndexMap

  ghost predicate DistinctKeys<V>(m: seq<Slot<V>>) {
    forall i, j | 0 <= i < j < |m| :: m[i].key != m[j].key
  }

  function KeysOf<V>(m: seq<Slot<V>>): set<string> { set i | 0 <= i < |m| :: m[i].key }

  /** Position of the key, or the length of the map. */
  function IndexOf<V>(m: seq<Slot<V>>, key: string): (i: nat)
    ensures i <= |m| && (i < |m| <==> key in KeysOf(m))
    ensures i < |m| ==> m[i].key == key
    ensures forall j | 0 <= j < i :: m[j].key != key
  {
    if m == [] || m[0].key == key then
      assert m != [] ==> m[0].key in KeysOf(m);
      0
    else
      assert KeysOf(m) == {m[0].key} + KeysOf(m[1..]) by {
        assert forall i | 1 <= i < |m| :: m[i] == m[1..][i - 1];
        assert forall i | 0 <= i < |m| - 1 :: m[1..][i] == m[i + 1];
      }
      1 + IndexOf(m[1..], key)
  }

  function Lookup<V>(m: seq<Slot<V>>, key: string): Option<V> {
    var i := IndexOf(m, key);
    if i < |m| then Some(m[i].value) else None
  }

  function Without<T>(s: seq<T>, i: nat): (r: seq<T>)
    requires i < |s|
    ensures |r| == |s| - 1
  {
    s[..i] + s[i + 1..]
  }

  /** The last element takes the place of the removed one. */
  function SwapOut<T>(s: seq<T>, i: nat): (r: seq<T>)
    requires i < |s|
    ensures |r| == |s| - 1
  {
    if i == |s| - 1 then s[..i] else s[..i] + [s[|s| - 1]] + s[i + 1..|s| - 1]
  }

  lemma WithoutAt<T>(s: seq<T>, i: nat, j: nat)
    requires i < |s| && j < |s| - 1
    ensures Without(s, i)[j] == if j < i then s[j] else s[j + 1]
  {
  }

  lemma SwapOutAt<T>(s: seq<T>, i: nat, j: nat)
    requires i < |s| && j < |s| - 1
    ensures SwapOut(s, i)[j] == if j == i then s[|s| - 1] else s[j]
  {
  }

  /** shift_remove keeps the order of the others. */
  function ShiftRemove<V>(m: seq<Slot<V>>, key: string): seq<Slot<V>> {
    var i := IndexOf(m, key);
    if i < |m| then Without(m, i) else m
  }

  /** swap_remove moves the last slot into the hole. */
  function SwapRemove<V>(m: seq<Slot<V>>, key: string): seq<Slot<V>> {
    var i := IndexOf(m, key);
    if i < |m| then SwapOut(m, i) else m
  }

  /** insert replaces in place or appends. */
  function Insert<V>(m: seq<Slot<V>>, key: string, value: V): seq<Slot<V>> {
    var i := IndexOf(m, key);
    if i < |m| then m[i := Slot(key, value)] else m + [Slot(key, value)]
  }

  /** A hit moves the slot to the young end. */
  function Touch<V>(m: seq<Slot<V>>, key: string): seq<Slot<V>> {
    var i := IndexOf(m, key);
    if i < |m| then Insert(ShiftRemove(m, key), key, m[i].value) else m
  }

  lemma SameSlotsSameKeys<V>(m: seq<Slot<V>>, r: seq<Slot<V>>, key: string)
    requires forall s :: s in r <==> s in m && s.key != key
    ensures KeysOf(r) == KeysOf(m) - {key}
  {
    forall k | k in KeysOf(m) - {key} ensures k in KeysOf(r) {
      var j :| 0 <= j < |m| && m[j].key == k;
      assert m[j] in r;
    }
    forall k | k in KeysOf(r) ensures k in KeysOf(m) - {key} {
      var j :| 0 <= j < |r| && r[j].key == k;
      assert r[j] in m;
    }
  }

  lemma RemovalFacts<V>(m: seq<Slot<V>>, key: string)
    requires DistinctKeys(m)
    ensures DistinctKeys(ShiftRemove(m, key)) && KeysOf(ShiftRemove(m, key)) == KeysOf(m) - {key}
    ensures forall s :: s in ShiftRemove(m, key) <==> s in m && s.key != key
  {
    RemovedSlots(m, key);
    SameSlotsSameKeys(m, ShiftRemove(m, key), key);
  }

  lemma RemovedSlots<V>(m: seq<Slot<V>>, key: string)
    requires DistinctKeys(m)
    ensures DistinctKeys(ShiftRemove(m, key))
    ensures forall s :: s in ShiftRemove(m, key) <==> s in m && s.key != key
  {
    hide KeysOf, Without;
    var i := IndexOf(m, key);
    if i < |m| {
      var r := Without(m, i);
      forall j | 0 <= j < |r| ensures r[j] == m[if j < i then j else j + 1] {
        WithoutAt(m, i, j);
      }
      forall s | s in m && s.key != key ensures s in r {
        var j :| 0 <= j < |m| && m[j] == s;
        WithoutAt(m, i, if j < i then j else j - 1);
        assert r[if j < i then j else j - 1] == s;
      }
    } else {
      assert forall j | 0 <= j < |m| :: m[j].key != key;
    }
  }

  lemma SwapFacts<V>(m: seq<Slot<V>>, key: string)
    requires DistinctKeys(m)
    ensures DistinctKeys(SwapRemove(m, key)) && KeysOf(SwapRemove(m, key)) == KeysOf(m) - {key}
    ensures forall s :: s in SwapRemove(m, key) <==> s in m && s.key != key
  {
    SwappedSlots(m, key);
    SameSlotsSameKeys(m, SwapRemove(m, key), key);
  }

  lemma SwappedSlots<V>(m: seq<Slot<V>>, key: string)
    requires DistinctKeys(m)
    ensures DistinctKeys(SwapRemove(m, key))
    ensures forall s :: s in SwapRemove(m, key) <==> s in m && s.key != key
  {
    hide KeysOf, SwapOut;
    var i := IndexOf(m, key);
    if i < |m| {
      var r, last := SwapOut(m, i), |m| - 1;
      forall j | 0 <= j < |r| ensures r[j] == m[if j == i then last else j] {
        SwapOutAt(m, i, j);
      }
      forall s | s in m && s.key != key ensures s in r {
        var j :| 0 <= j < |m| && m[j] == s;
        SwapOutAt(m, i, if j == last then i else j);
        assert r[if j == last then i else j] == s;
      }
    } else {
      assert forall j | 0 <= j < |m| :: m[j].key != key;
    }
  }

  /** Dropping the eldest slots. */
  lemma SuffixFacts<V>(m: seq<Slot<V>>, n: nat)
    requires DistinctKeys(m) && n <= |m|
    ensures DistinctKeys(m[n..])
    ensures KeysOf(m[n..]) == KeysOf(m) - KeysOf(m[..n])
    ensures forall s | s in m[n..] :: s in m
  {
    forall j | 0 <= j < n ensures m[j].key in KeysOf(m[..n]) {
      assert m[..n][j] == m[j];
    }
    forall k | k in KeysOf(m) - KeysOf(m[..n]) ensures k in KeysOf(m[n..]) {
      var i :| 0 <= i < |m| && m[i].key == k;
      assert m[n..][i - n].key == k;
    }
    forall k | k in KeysOf(m[n..]) ensures k in KeysOf(m) && k !in KeysOf(m[..n]) {
      var i :| 0 <= i < |m| - n && m[n..][i].key == k;
      assert m[n + i].key == k;
      forall j | 0 <= j < n ensures m[..n][j].key != k {
        assert m[j].key != m[n + i].key;
      }
    }
  }

  lemma AppendFacts<V>(m: seq<Slot<V>>, key: string, value: V)
    requires DistinctKeys(m) && key !in KeysOf(m)
    ensures Insert(m, key, value) == m + [Slot(key, value)]
    ensures DistinctKeys(m + [Slot(key, value)])
    ensures KeysOf(m + [Slot(key, value)]) == KeysOf(m) + {key}
  {
    var r := m + [Slot(key, value)];
    forall k | k in KeysOf(m) + {key} ensures k in KeysOf(r) {
      if k == key {
        assert r[|m|].key == k;
      } else {
        var i :| 0 <= i < |m| && m[i].key == k;
        assert r[i].key == k;
      }
    }
  }

  // ---------------------------------------------------------------------------------------
  // Eviction

  function Sum(w: seq<nat>): nat { if w == [] then 0 else w[0] + Sum(w[1..]) }

  /** How many of the eldest slots a trim to `max` evicts. */
  function Evicted(w: seq<nat>, max: int): (n: nat)
    ensures n <= |w|
  {
    if w == [] || Sum(w) <= max then 0 else 1 + Evicted(w[1..], max)
  }

  /** The survivors are the longest suffix that fits. */
  lemma {:induction false} EvictionIsExact(w: seq<nat>, max: nat)
    ensures Sum(w[Evicted(w, max)..]) <= max
    ensures forall k | 0 <= k < Evicted(w, max) :: Sum(w[k..]) > max
  {
    if w == [] || Sum(w) <= max {
      assert w[0..] == w;
    } else {
      EvictionIsExact(w[1..], max);
      var n := Evicted(w[1..], max);
      assert w[1..][n..] == w[n + 1..];
      forall k | 0 <= k < n + 1 ensures Sum(w[k..]) > max {
        if k == 0 {
          assert w[0..] == w;
        } else {
          assert w[1..][k - 1..] == w[k..];
        }
      }
    }
  }

  lemma {:induction false} SumOfJoin(a: seq<nat>, b: seq<nat>)
    ensures Sum(a + b) == Sum(a) + Sum(b)
  {
    if a == [] {
      assert a + b == b;
    } else {
      SumOfJoin(a[1..], b);
      assert (a + b)[1..] == a[1..] + b;
    }
  }

  // ---------------------------------------------------------------------------------------
  // The memory tier

  function Lengths(m: seq<Slot<Bytes>>): (w: seq<nat>)
    ensures |w| == |m| && forall i | 0 <= i < |m| :: w[i] == |m[i].value|
  {
    if m == [] then [] else [|m[0].value|] + Lengths(m[1..])
  }

  lemma LengthsAre(m: seq<Slot<Bytes>>, w: seq<nat>)
    requires |w| == |m| && forall i | 0 <= i < |m| :: w[i] == |m[i].value|
    ensures Lengths(m) == w
  {
  }

  function MemoryTrim(m: seq<Slot<Bytes>>, max: int): seq<Slot<Bytes>> {
    m[Evicted(Lengths(m), max)..]
  }

  function MemoryPut(m: seq<Slot<Bytes>>, key: string, value: Bytes, max: int): seq<Slot<Bytes>> {
    MemoryTrim(Insert(SwapRemove(m, key), key, value), max)
  }

  // ---------------------------------------------------------------------------------------
  // The storage tier

  /** The index of cached files with the sizes recorded for them, and the files that exist. */
  datatype Storage = Storage(index: seq<Slot<string>>, sizes: map<string, nat>, files: map<string, Bytes>)

  ghost predicate Consistent(st: Storage) {
    DistinctKeys(st.index) && st.sizes.Keys == KeysOf(st.index)
  }

  function Recorded(index: seq<Slot<string>>, sizes: map<string, nat>): (w: seq<nat>)
    ensures |w| == |index|
    ensures forall i | 0 <= i < |index| :: w[i] == if index[i].key in sizes then sizes[index[i].key] else 0
  {
    if index == [] then []
    else [if index[0].key in sizes then sizes[index[0].key] else 0] + Recorded(index[1..], sizes)
  }

  lemma RecordedAre(index: seq<Slot<string>>, sizes: map<string, nat>, w: seq<nat>)
    requires |w| == |index|
    requires forall i | 0 <= i < |index| :: w[i] == if index[i].key in sizes then sizes[index[i].key] else 0
    ensures Recorded(index, sizes) == w
  {
  }

  function StorageSize(st: Storage): nat { Sum(Recorded(st.index, st.sizes)) }

  /** remove_entry_locked, with or without deleting the file. */
  function RemoveEntry(st: Storage, key: string, deleteFile: bool): Storage {
    var i := IndexOf(st.index, key);
    if i == |st.index| then st
    else Storage(ShiftRemove(st.index, key), st.sizes - {key},
                 if deleteFile then st.files - {st.index[i].value} else st.files)
  }

  /** Slots whose file still exists. */
  function Existing(index: seq<Slot<string>>, files: map<string, Bytes>): (r: seq<Slot<string>>)
    ensures forall s :: s in r <==> s in index && s.value in files
  {
    if index == [] then []
    else (if index[0].value in files then [index[0]] else []) + Existing(index[1..], files)
  }

  function RealSizes(index: seq<Slot<string>>, files: map<string, Bytes>): (r: map<string, nat>)
    requires forall s | s in index :: s.value in files
  {
    map k | k in KeysOf(index) :: |files[index[IndexOf(index, k)].value]|
  }

  /** repair_size_locked: forget missing files, measure the others again. */
  function Repaired(st: Storage): Storage {
    var kept := Existing(st.index, st.files);
    Storage(kept, RealSizes(kept, st.files), st.files)
  }

  function Paths(index: seq<Slot<string>>): set<string> { set i | 0 <= i < |index| :: index[i].value }

  /** Evict the `n` eldest slots with their files. */
  function EvictFront(st: Storage, n: nat): Storage
    requires n <= |st.index|
  {
    Storage(st.index[n..], st.sizes - KeysOf(st.index[..n]), st.files - Paths(st.index[..n]))
  }

  function StorageTrim(st: Storage, max: int): Storage {
    if max < 0 then EvictFront(st, |st.index|)
    else
      var r := Repaired(st);
      EvictFront(r, Evicted(Recorded(r.index, r.sizes), max))
  }

  function SafeSize(files: map<string, Bytes>, path: string): nat {
    if path in files then |files[path]| else 0
  }

  /** The index with `key` as its youngest slot. */
  function Indexed(st: Storage, key: string, path: string, size: nat): Storage {
    var r := RemoveEntry(st, key, false);
    Storage(Insert(r.index, key, path), r.sizes[key := size], r.files)
  }

  function StoragePut(st: Storage, key: string, path: string, max: int): Storage {
    StorageTrim(Indexed(st, key, path, SafeSize(st.files, path)), max)
  }

  /** A hit refreshes recency; a slot whose file is gone is dropped. */
  function StorageGet(st: Storage, key: string): (Storage, Option<string>) {
    var i := IndexOf(st.index, key);
    if i == |st.index| then (st, None)
    else if st.index[i].value in st.files then (st.(index := Touch(st.index, key)), Some(st.index[i].value))
    else (RemoveEntry(st, key, false), None)
  }
}
