/** The two tiers behind one facade, and the removal of everything cached for one url. */
module CacheSingletons {
  import opened Wrappers
  import opened LruSpec
  import opened LruFacts
  import opened LruCaches
  import opened TwoTierCache
  import opened SegmentGrid
  import CacheKeys
  import Decimal

  /** The cache keys of one url under fixed headers; TaskKeys gives the ones the program computes. */
  datatype UrlKeys = UrlKeys(full: string, metadata: string, directory: string, range: (int, int) -> string)
  {
    ghost predicate Valid() {
      full != "" && metadata != "" && directory != "" && forall a, b :: range(a, b) != ""
    }
  }

  /** Nothing is cached under the key in either tier. */
  ghost predicate Absent(t: Tiers, key: string) {
    key !in KeysOf(t.memory) && key !in KeysOf(t.storage.index)
  }

  // ---------------------------------------------------------------------------------------
  // Purging several keys

  function PurgeSeq(t: Tiers, names: seq<string>): Tiers {
    if names == [] then t else Purge(PurgeSeq(t, names[..|names| - 1]), names[|names| - 1])
  }

  function WithoutFiles(t: Tiers, paths: set<string>): Tiers {
    t.(storage := t.storage.(files := t.storage.files - paths))
  }

  lemma PurgeOneMore(t: Tiers, names: seq<string>, key: string)
    ensures PurgeSeq(t, names + [key]) == Purge(PurgeSeq(t, names), key)
  {
    assert (names + [key])[..|names|] == names;
  }

  ghost predicate Distinct(t: Tiers) { DistinctKeys(t.memory) && DistinctKeys(t.storage.index) }

  lemma PurgeIsExact(t: Tiers, key: string)
    requires Distinct(t)
    ensures var r := Purge(t, key);
            && Distinct(r)
            && (forall s :: s in r.memory <==> s in t.memory && s.key != key)
            && (forall s :: s in r.storage.index <==> s in t.storage.index && s.key != key)
            && (forall p | p in r.storage.files :: p in t.storage.files && r.storage.files[p] == t.storage.files[p])
            && (forall p | p in t.storage.files :: p !in r.storage.files <==>
                  exists s :: s in t.storage.index && s.key == key && s.value == p)
  {
    RemovalFacts(t.memory, key);
    RemovalFacts(t.storage.index, key);
    var i := IndexOf(t.storage.index, key);
    assert i < |t.storage.index| ==> t.storage.index[i] in t.storage.index;
  }

  /** Purging takes exactly the slots of the named keys out of both tiers, and exactly their files. */
  lemma {:induction false} PurgeSeqIsExact(t: Tiers, names: seq<string>)
    requires Distinct(t)
    ensures var r := PurgeSeq(t, names);
            && Distinct(r)
            && (forall s :: s in r.memory <==> s in t.memory && s.key !in names)
            && (forall s :: s in r.storage.index <==> s in t.storage.index && s.key !in names)
            && (forall p | p in r.storage.files :: p in t.storage.files && r.storage.files[p] == t.storage.files[p])
            && (forall p | p in t.storage.files :: p !in r.storage.files <==>
                  exists s :: s in t.storage.index && s.key in names && s.value == p)
  {
    hide Purge, Distinct;
    if names != [] {
      var n := |names| - 1;
      PurgeSeqIsExact(t, names[..n]);
      PurgeIsExact(PurgeSeq(t, names[..n]), names[n]);
      assert names == names[..n] + [names[n]];
    }
  }

  /** The cells of a file of `n` segments, in order. */
  function GridNames(keys: UrlKeys, seg: int, n: int): seq<string>
    decreases n
  {
    if n <= 0 then [] else GridNames(keys, seg, n - 1) + [keys.range(Cell(n - 1, seg).0, Cell(n - 1, seg).1)]
  }

  lemma GridStarts(keys: UrlKeys, seg: int, n: int)
    ensures GridNames(keys, seg, 0) == [] && (n <= 0 ==> GridNames(keys, seg, n) == [])
  {
  }

  lemma GridNext(keys: UrlKeys, seg: int, k: nat)
    ensures GridNames(keys, seg, k + 1) == GridNames(keys, seg, k) + [keys.range(Cell(k, seg).0, Cell(k, seg).1)]
  {
  }

  lemma {:induction false} GridNamesAre(keys: UrlKeys, seg: int, n: int, k: nat)
    requires k < n
    ensures keys.range(Cell(k, seg).0, Cell(k, seg).1) in GridNames(keys, seg, n)
    decreases n
  {
    hide Cell;
    if k < n - 1 {
      GridNamesAre(keys, seg, n - 1, k);
    }
  }

  /** The keys remove_single_entry purges.  `registered` is the key of the registry segment with
      this url, if any; `strays` are the file stems found in the url's directory. */
  function RemovalNames(keys: UrlKeys, seg: int, len: Option<int>, registered: Option<string>,
                        strays: seq<string>): seq<string>
    requires seg > 0
  {
    var whole := [keys.full] + [keys.metadata];
    var cells := if len.Some? then whole + GridNames(keys, seg, TotalSegments(len.value, seg)) else whole;
    var probe := cells + [keys.range(0, 1)];
    var directory := if keys.full != keys.directory then probe + [keys.directory] else probe;
    var segment := if registered.Some? && registered.value != keys.full then directory + [registered.value] else directory;
    segment + strays
  }

  /** After them nothing of the url is left: neither the whole file nor its metadata, nor any cell
      that precache could have filled for a file of the cached length. */
  lemma RemovalIsComplete(t: Tiers, keys: UrlKeys, seg: int, len: Option<int>, registered: Option<string>,
                          strays: seq<string>)
    requires seg > 0 && Distinct(t)
    ensures var r := PurgeSeq(t, RemovalNames(keys, seg, len, registered, strays));
            && Absent(r, keys.full) && Absent(r, keys.metadata) && Absent(r, keys.directory) && Absent(r, keys.range(0, 1))
            && (len.Some? && len.value > 0 ==>
                  forall wanted: nat, k: nat | k < ClampedSegments(wanted, len.value, seg) ::
                    Absent(r, keys.range(Cell(k, seg).0, Cell(k, seg).1)))
  {
    hide Cell, TotalSegments, PurgeSeq;
    var names := RemovalNames(keys, seg, len, registered, strays);
    PurgeSeqIsExact(t, names);
    assert names[0] == keys.full && names[1] == keys.metadata;
    assert keys.range(0, 1) in names && keys.directory in names;
    AbsentAll(PurgeSeq(t, names), names);
    if len.Some? && len.value > 0 {
      var total := TotalSegments(len.value, seg);
      forall wanted: nat, k: nat | k < ClampedSegments(wanted, len.value, seg)
        ensures Absent(PurgeSeq(t, names), keys.range(Cell(k, seg).0, Cell(k, seg).1))
      {
        GridNamesAre(keys, seg, total, k);
        assert keys.range(Cell(k, seg).0, Cell(k, seg).1) in names;
      }
    }
  }

  lemma AbsentAll(t: Tiers, names: seq<string>)
    requires forall s | s in t.memory :: s.key !in names
    requires forall s | s in t.storage.index :: s.key !in names
    ensures forall k | k in names :: Absent(t, k)
  {
    forall k | k in names ensures Absent(t, k) {
      assert forall i | 0 <= i < |t.memory| :: t.memory[i] in t.memory;
      assert forall i | 0 <= i < |t.storage.index| :: t.storage.index[i] in t.storage.index;
    }
  }

  // ---------------------------------------------------------------------------------------
  // The keys the program computes

  /** The task with the range start..=end. */
  function WithRange(task: CacheKeys.KeyTask, start: int, end: int): CacheKeys.KeyTask {
    task.(start := start, end := Some(end))
  }

  ghost function TaskKeys(task: CacheKeys.KeyTask, matcher: CacheKeys.Matcher, hash: CacheKeys.Url -> string,
                          directory: string): UrlKeys
  {
    UrlKeys(CacheKeys.EntryOf(task.(start := 0, end := None), matcher, hash),
            CacheKeys.MetadataEntryOf(task, matcher, hash), directory,
            (a, b) => CacheKeys.EntryOf(WithRange(task, a, b), matcher, hash))
  }

  /** Whatever precache or a full download stored for a url is gone after its removal: the entries of
      its tasks are absent from both tiers. */
  lemma RemovalClearsTasks(t: Tiers, task: CacheKeys.KeyTask, matcher: CacheKeys.Matcher,
                           hash: CacheKeys.Url -> string, directory: string, seg: int, len: Option<int>,
                           registered: Option<string>, strays: seq<string>)
    requires seg > 0 && Distinct(t)
    ensures var r := PurgeSeq(t, RemovalNames(TaskKeys(task, matcher, hash, directory), seg, len, registered, strays));
            && Absent(r, CacheKeys.EntryOf(task.(start := 0, end := None), matcher, hash))
            && Absent(r, CacheKeys.MetadataEntryOf(task, matcher, hash))
            && (len.Some? && len.value > 0 ==>
                  forall wanted: nat, k: nat | k < ClampedSegments(wanted, len.value, seg) ::
                    Absent(r, CacheKeys.EntryOf(WithRange(task, Cell(k, seg).0, Cell(k, seg).1), matcher, hash)))
  {
    hide Absent, PurgeSeq, RemovalNames, ClampedSegments, Cell;
    var keys := TaskKeys(task, matcher, hash, directory);
    RemovalIsComplete(t, keys, seg, len, registered, strays);
    var r := PurgeSeq(t, RemovalNames(keys, seg, len, registered, strays));
    if len.Some? && len.value > 0 {
      forall wanted: nat, k: nat | k < ClampedSegments(wanted, len.value, seg)
        ensures Absent(r, CacheKeys.EntryOf(WithRange(task, Cell(k, seg).0, Cell(k, seg).1), matcher, hash))
      {
        assert keys.range(Cell(k, seg).0, Cell(k, seg).1) ==
               CacheKeys.EntryOf(WithRange(task, Cell(k, seg).0, Cell(k, seg).1), matcher, hash);
      }
    }
  }

  lemma {:induction false} GridNamesOnly(keys: UrlKeys, seg: int, n: int, name: string)
    requires name in GridNames(keys, seg, n)
    ensures exists k: nat :: k < n && name == keys.range(Cell(k, seg).0, Cell(k, seg).1)
    decreases n
  {
    hide Cell;
    if name in GridNames(keys, seg, n - 1) {
      GridNamesOnly(keys, seg, n - 1, name);
    } else {
      assert name == keys.range(Cell(n - 1, seg).0, Cell(n - 1, seg).1);
    }
  }

  predicate IsCell(a: int, b: int, seg: int, n: int)
    requires seg > 0
  {
    exists k: nat :: k < n && Cell(k, seg) == (a, b)
  }

  ghost function CellUri(task: CacheKeys.KeyTask, matcher: CacheKeys.Matcher, seg: int, k: int): CacheKeys.Url {
    CacheKeys.CacheUri(WithRange(task, Cell(k, seg).0, Cell(k, seg).1), matcher)
  }

  ghost function CellUris(task: CacheKeys.KeyTask, matcher: CacheKeys.Matcher, seg: int, n: int): set<CacheKeys.Url> {
    set k | 0 <= k < n :: CellUri(task, matcher, seg, k)
  }

  /** The canonical URLs RangeIsPurgedExactly is about: of the range a..=b, the whole file, the probe and
      the cells of the cached length. */
  ghost function PurgedUris(task: CacheKeys.KeyTask, matcher: CacheKeys.Matcher, seg: int, len: Option<int>,
                            a: int, b: int): set<CacheKeys.Url>
    requires seg > 0
  {
    var n := if len.Some? then TotalSegments(len.value, seg) else 0;
    {CacheKeys.CacheUri(WithRange(task, a, b), matcher), CacheKeys.WholeUri(task, matcher),
     CacheKeys.CacheUri(WithRange(task, 0, 1), matcher)}
    + CellUris(task, matcher, seg, n)
  }

  lemma PurgedApart(task: CacheKeys.KeyTask, matcher: CacheKeys.Matcher, hash: CacheKeys.Url -> string, seg: int,
                    len: Option<int>, a: int, b: int)
    requires seg > 0 && CacheKeys.ApartOn(hash, PurgedUris(task, matcher, seg, len, a, b))
    ensures var u := CacheKeys.CacheUri(WithRange(task, a, b), matcher);
            && CacheKeys.ApartOn(hash, {u, CacheKeys.WholeUri(task, matcher)})
            && CacheKeys.ApartOn(hash, {u, CacheKeys.CacheUri(WithRange(task, 0, 1), matcher)})
            && (len.Some? ==> forall k: nat | k < TotalSegments(len.value, seg) ::
                  CacheKeys.ApartOn(hash, {u, CellUri(task, matcher, seg, k)}))
  {
    hide CacheKeys.CacheUri, CacheKeys.WholeUri, TotalSegments, Cell;
    if len.Some? {
      forall k: nat | k < TotalSegments(len.value, seg)
        ensures CellUri(task, matcher, seg, k) in PurgedUris(task, matcher, seg, len, a, b)
      {
      }
    }
  }

  /** A range of a url that carries none of its own is purged exactly when it is a cell of the cached
      length or the probe, or its entry comes up as a directory, registry or file name.  In particular
      the wide windows of the lookahead stay, unless the directory scan finds them. */
  lemma {:induction false} RangeIsPurgedExactly(task: CacheKeys.KeyTask, matcher: CacheKeys.Matcher,
                                                hash: CacheKeys.Url -> string, directory: string, seg: int,
                                                len: Option<int>, registered: Option<string>, strays: seq<string>,
                                                a: int, b: int)
    requires seg > 0 && CacheKeys.ApartOn(hash, PurgedUris(task, matcher, seg, len, a, b))
    requires CacheKeys.CarriesNoRange(task.uri.query, matcher)
    requires CacheKeys.ValidRange(a, Some(b)) && (len.Some? ==> len.value + seg <= Decimal.I64_MAX)
    ensures var entry := CacheKeys.EntryOf(WithRange(task, a, b), matcher, hash);
            entry in RemovalNames(TaskKeys(task, matcher, hash, directory), seg, len, registered, strays) <==>
            || (len.Some? && IsCell(a, b, seg, TotalSegments(len.value, seg)))
            || (a, b) == (0, 1)
            || entry == directory || Some(entry) == registered || entry in strays
  {
    PurgedApart(task, matcher, hash, seg, len, a, b);
    hide CacheKeys.EntryOf, CacheKeys.CarriesNoRange, CacheKeys.ApartOn, CacheKeys.CacheUri, CacheKeys.WholeUri;
    hide TotalSegments, Cell, RemovalNames, PurgedUris;
    var keys := TaskKeys(task, matcher, hash, directory);
    var entry := CacheKeys.EntryOf(WithRange(task, a, b), matcher, hash);
    var cells := if len.Some? then GridNames(keys, seg, TotalSegments(len.value, seg)) else [];
    EntryIsARange(task, matcher, hash, a, b);
    OneOfNames(keys, seg, len, registered, strays, entry);
    SameRange(task, matcher, hash, a, b, 0, 1);
    if len.Some? {
      var n := TotalSegments(len.value, seg);
      if entry in cells {
        GridNamesOnly(keys, seg, n, entry);
        var k: nat :| k < n && entry == keys.range(Cell(k, seg).0, Cell(k, seg).1);
        CellIsValid(len.value, seg, k);
        assert CellUri(task, matcher, seg, k) ==
               CacheKeys.CacheUri(WithRange(task, Cell(k, seg).0, Cell(k, seg).1), matcher);
        SameRange(task, matcher, hash, a, b, Cell(k, seg).0, Cell(k, seg).1);
      }
      if IsCell(a, b, seg, n) {
        var k: nat :| k < n && Cell(k, seg) == (a, b);
        GridNamesAre(keys, seg, n, k);
      }
    }
  }

  lemma {:induction false} FewCells(task: CacheKeys.KeyTask, matcher: CacheKeys.Matcher, seg: int, n: int)
    ensures |CellUris(task, matcher, seg, n)| <= if n < 0 then 0 else n
    decreases n
  {
    hide CellUri;
    var uris := CellUris(task, matcher, seg, n);
    if n <= 0 {
      assert uris == {};
    } else {
      FewCells(task, matcher, seg, n - 1);
      assert uris == CellUris(task, matcher, seg, n - 1) + {CellUri(task, matcher, seg, n - 1)};
    }
  }

  lemma ThreeMore<T>(x: T, y: T, z: T, rest: set<T>)
    ensures |{x, y, z} + rest| <= 3 + |rest|
  {
    assert {x, y, z} == {x} + {y} + {z};
  }

  lemma FewSegments(len: int, seg: int)
    requires seg > 0 && len + seg <= Decimal.I64_MAX
    ensures TotalSegments(len, seg) <= Decimal.I64_MAX
  {
  }

  /** So there is such a hash for the URLs of any removal. */
  lemma {:induction false} PurgeHashExists(task: CacheKeys.KeyTask, matcher: CacheKeys.Matcher, seg: int,
                                           len: Option<int>, a: int, b: int)
    returns (hash: CacheKeys.Url -> string)
    requires seg > 0 && (len.Some? ==> len.value + seg <= Decimal.I64_MAX)
    ensures CacheKeys.ApartOn(hash, PurgedUris(task, matcher, seg, len, a, b))
  {
    hide CacheKeys.CacheUri, CacheKeys.WholeUri, TotalSegments, CellUris, CacheKeys.ApartOn, CacheKeys.Pow10;
    CacheKeys.TenTo32();
    var n := if len.Some? then TotalSegments(len.value, seg) else 0;
    var cells := CellUris(task, matcher, seg, n);
    FewCells(task, matcher, seg, n);
    if len.Some? {
      FewSegments(len.value, seg);
    }
    ThreeMore(CacheKeys.CacheUri(WithRange(task, a, b), matcher), CacheKeys.WholeUri(task, matcher),
              CacheKeys.CacheUri(WithRange(task, 0, 1), matcher), cells);
    hash := CacheKeys.HashExists(PurgedUris(task, matcher, seg, len, a, b));
  }

  lemma OneOfNames(keys: UrlKeys, seg: int, len: Option<int>, registered: Option<string>, strays: seq<string>, name: string)
    requires seg > 0 && name != keys.full && name != keys.metadata
    ensures name in RemovalNames(keys, seg, len, registered, strays) <==>
            || (len.Some? && name in GridNames(keys, seg, TotalSegments(len.value, seg)))
            || name == keys.range(0, 1) || name == keys.directory || Some(name) == registered || name in strays
  {
  }

  lemma EntryIsARange(task: CacheKeys.KeyTask, matcher: CacheKeys.Matcher, hash: CacheKeys.Url -> string, a: int, b: int)
    requires CacheKeys.ApartOn(hash, {CacheKeys.CacheUri(WithRange(task, a, b), matcher), CacheKeys.WholeUri(task, matcher)})
    requires CacheKeys.CarriesNoRange(task.uri.query, matcher) && CacheKeys.ValidRange(a, Some(b))
    ensures var entry := CacheKeys.EntryOf(WithRange(task, a, b), matcher, hash);
            && entry != CacheKeys.EntryOf(task.(start := 0, end := None), matcher, hash)
            && entry != CacheKeys.MetadataEntryOf(task, matcher, hash)
  {
    var u := WithRange(task, a, b);
    assert u.(start := 0, end := None) == task.(start := 0, end := None);
    var uri, whole := CacheKeys.CacheUri(u, matcher), CacheKeys.WholeUri(task, matcher);
    assert CacheKeys.CacheUri(u.(start := 0, end := None), matcher) == CacheKeys.WholeUri(u, matcher) == whole;
    assert {whole, CacheKeys.WholeUri(u, matcher), uri} == {uri, whole};
    hide CacheKeys.CarriesNoRange, CacheKeys.EntryOf, CacheKeys.MetadataEntryOf, CacheKeys.CacheUri, CacheKeys.WholeUri,
         CacheKeys.ApartOn;
    CacheKeys.EntriesFollowRanges(u, 0, None, matcher, hash);
    CacheKeys.MetadataIsApart(task, u, matcher, hash);
  }

  lemma SameRange(task: CacheKeys.KeyTask, matcher: CacheKeys.Matcher, hash: CacheKeys.Url -> string,
                  a: int, b: int, c: int, d: int)
    requires CacheKeys.ApartOn(hash, {CacheKeys.CacheUri(WithRange(task, a, b), matcher),
                                      CacheKeys.CacheUri(WithRange(task, c, d), matcher)})
    requires CacheKeys.CarriesNoRange(task.uri.query, matcher)
    requires CacheKeys.ValidRange(a, Some(b)) && CacheKeys.ValidRange(c, Some(d))
    ensures (CacheKeys.EntryOf(WithRange(task, a, b), matcher, hash) ==
             CacheKeys.EntryOf(WithRange(task, c, d), matcher, hash)) <==> (a, b) == (c, d)
  {
    hide CacheKeys.CarriesNoRange, CacheKeys.EntryOf;
    CacheKeys.EntriesFollowRanges(WithRange(task, a, b), c, Some(d), matcher, hash);
    assert WithRange(task, a, b).(start := c, end := Some(d)) == WithRange(task, c, d);
  }

  lemma CellIsValid(len: int, seg: int, k: nat)
    requires seg > 0 && k < TotalSegments(len, seg) && len + seg <= Decimal.I64_MAX
    ensures CacheKeys.ValidRange(Cell(k, seg).0, Some(Cell(k, seg).1))
  {
    hide TotalSegments;
    CellBeginsInside(len, seg, k);
    assert seg * k >= 0;
  }

  /** read_content_length_from_cache: the metadata slot, then the legacy one under bytes 0-1,
      which is migrated. */
  function ContentLength(t: Tiers, keys: UrlKeys, parse: Bytes -> Option<int>, parseLegacy: Bytes -> Option<int>,
                         print_: int -> Bytes): (Tiers, Option<int>)
  {
    var (t1, data) := Resolve(t, keys.metadata);
    if data.Some? && parse(data.value).Some? then (t1, parse(data.value))
    else
      var legacyKey := keys.range(0, 1);
      var (t2, legacy) := Resolve(t1, legacyKey);
      if legacy.None? || parseLegacy(legacy.value).None? then (t2, None)
      else
        var len := parseLegacy(legacy.value).value;
        var t3 := Purge(t2, legacyKey);
        (t3.(memory := MemoryPut(t3.memory, keys.metadata, print_(len), t3.memoryMax)), Some(len))
  }

  /** Reading the content length is a run of the cache machine: resolves, and for a migration a purge and
      a put in memory.  It is a sensible one when the cached metadata parses, since storage then knows the
      key of a migrated length no more. */
  lemma {:induction false} ContentLengthIsARun(t: Tiers, keys: UrlKeys, parse: Bytes -> Option<int>,
                                               parseLegacy: Bytes -> Option<int>, print_: int -> Bytes)
    returns (run: seq<Event>)
    requires Distinct(t)
    ensures Run(t, run) == ContentLength(t, keys, parse, parseLegacy, print_).0
    ensures forall i | 0 <= i < |run| :: !run[i].Completed?
    ensures var cached := Resolve(t, keys.metadata).1;
            (cached.Some? ==> parse(cached.value).Some?) ==> AllSensible(t, run)
  {
    hide Resolve, Purge, MemoryPut, Distinct;
    var (t1, data) := Resolve(t, keys.metadata);
    var first, second := Resolved(keys.metadata), Resolved(keys.range(0, 1));
    OneStep(t1);
    if data.Some? && parse(data.value).Some? {
      run := [first];
      assert run[1..] == [];
    } else {
      var (t2, legacy) := Resolve(t1, keys.range(0, 1));
      OneStep(t2);
      if legacy.None? || parseLegacy(legacy.value).None? {
        run := [first, second];
        assert run[1..] == [second] && [second][1..] == [];
      } else {
        var purge := Purged(keys.range(0, 1));
        var put := MemoryStored(keys.metadata, print_(parseLegacy(legacy.value).value));
        var t3 := Purge(t2, keys.range(0, 1));
        run := [first, second, purge, put];
        assert run[1..] == [second, purge, put] && [second, purge, put][1..] == [purge, put];
        assert [purge, put][1..] == [put] && [put][1..] == [];
        OneStep(Next(t3, put));
        assert Next(t2, purge) == t3 && Next(t1, second) == t2 && Next(t, first) == t1;
        if data.None? {
          MissIsUnknown(t, keys.metadata);
          StillUnknown(t1, keys.range(0, 1), keys.metadata);
          assert AllSensible(t3, [put]);
          assert AllSensible(t2, [purge, put]) && AllSensible(t1, [second, purge, put]);
        }
        assert Run(t3, [put]) == Next(t3, put) && Run(t2, [purge, put]) == Run(t3, [put]);
        assert Run(t1, [second, purge, put]) == Run(t2, [purge, put]);
      }
    }
  }

  /** The answer: what the metadata slot holds, when that parses, else what the legacy slot holds. */
  lemma ContentLengthIs(t: Tiers, keys: UrlKeys, parse: Bytes -> Option<int>, parseLegacy: Bytes -> Option<int>,
                        print_: int -> Bytes)
    ensures var (t1, data) := Resolve(t, keys.metadata);
            var legacy := Resolve(t1, keys.range(0, 1)).1;
            var parsed := if data.Some? then parse(data.value) else None;
            ContentLength(t, keys, parse, parseLegacy, print_).1 ==
            if parsed.Some? then parsed else if legacy.Some? then parseLegacy(legacy.value) else None
  {
  }

  /** A migration leaves nothing under the legacy key; otherwise the tiers are as the resolves leave them. */
  lemma {:induction false} MigrationMoves(t: Tiers, keys: UrlKeys, parse: Bytes -> Option<int>,
                                          parseLegacy: Bytes -> Option<int>, print_: int -> Bytes)
    requires Distinct(t) && keys.range(0, 1) != keys.metadata
    ensures var (t1, data) := Resolve(t, keys.metadata);
            var (t2, legacy) := Resolve(t1, keys.range(0, 1));
            var r := ContentLength(t, keys, parse, parseLegacy, print_).0;
            if data.Some? && parse(data.value).Some? then r == t1
            else if legacy.None? || parseLegacy(legacy.value).None? then r == t2
            else Absent(r, keys.range(0, 1))
  {
    hide Resolve, MemoryPut, DistinctKeys, KeysOf;
    var (t1, data) := Resolve(t, keys.metadata);
    ResolveKeepsDistinct(t, keys.metadata);
    ResolveKeepsDistinct(t1, keys.range(0, 1));
    var (t2, legacy) := Resolve(t1, keys.range(0, 1));
    if legacy.Some? && parseLegacy(legacy.value).Some? {
      var t3 := Purge(t2, keys.range(0, 1));
      RemovalFacts(t2.memory, keys.range(0, 1));
      RemovalFacts(t2.storage.index, keys.range(0, 1));
      hide ShiftRemove;
      assert Absent(t3, keys.range(0, 1));
      PutElsewhere(t3.memory, keys.metadata, print_(parseLegacy(legacy.value).value), t3.memoryMax, keys.range(0, 1));
    }
  }

  lemma PutElsewhere(m: seq<Slot<Bytes>>, key: string, data: Bytes, max: int, other: string)
    requires DistinctKeys(m) && other != key && other !in KeysOf(m)
    ensures other !in KeysOf(MemoryPut(m, key, data, max))
  {
    MemoryPutFacts(m, key, data, max);
    hide MemoryPut;
    assert forall i | 0 <= i < |m| :: m[i].key in KeysOf(m);
  }

  lemma {:induction false} ResolveKeepsDistinct(t: Tiers, key: string)
    requires Distinct(t)
    ensures Distinct(Resolve(t, key).0)
  {
    TouchFacts(t.memory, key);
    TouchFacts(t.storage.index, key);
    RemovalFacts(t.storage.index, key);
    var (storage, path) := StorageGet(t.storage, key);
    if path.Some? && path.value in storage.files {
      MemoryPutFacts(t.memory, key, storage.files[path.value], t.memoryMax);
    }
  }

  lemma {:induction false} ContentLengthKeepsDistinct(t: Tiers, keys: UrlKeys, parse: Bytes -> Option<int>,
                                                      parseLegacy: Bytes -> Option<int>, print_: int -> Bytes)
    requires Distinct(t)
    ensures Distinct(ContentLength(t, keys, parse, parseLegacy, print_).0)
  {
    hide Resolve, MemoryPut, DistinctKeys;
    ResolveKeepsDistinct(t, keys.metadata);
    var t1 := Resolve(t, keys.metadata).0;
    ResolveKeepsDistinct(t1, keys.range(0, 1));
    var (t2, legacy) := Resolve(t1, keys.range(0, 1));
    if legacy.Some? && parseLegacy(legacy.value).Some? {
      PurgeIsExact(t2, keys.range(0, 1));
      var t3 := Purge(t2, keys.range(0, 1));
      MemoryPutFacts(t3.memory, keys.metadata, print_(parseLegacy(legacy.value).value), t3.memoryMax);
    }
  }

  /** Reading it again gives the same: what was cached as metadata if it fits memory or was there already,
      and a migrated length if its text fits memory and parses back. */
  lemma {:induction false} ContentLengthIsKept(t: Tiers, keys: UrlKeys, parse: Bytes -> Option<int>,
                                               parseLegacy: Bytes -> Option<int>, print_: int -> Bytes)
    requires Distinct(t)
    ensures var (r, len) := ContentLength(t, keys, parse, parseLegacy, print_);
            var data := Resolve(t, keys.metadata).1;
            len.Some? &&
            (if data.Some? && parse(data.value).Some?
             then keys.metadata in KeysOf(t.memory) || |data.value| <= t.memoryMax
             else |print_(len.value)| <= t.memoryMax && parse(print_(len.value)) == len) ==>
              ContentLength(r, keys, parse, parseLegacy, print_).1 == len
  {
    hide Resolve, MemoryPut, KeysOf, DistinctKeys;
    var (t1, data) := Resolve(t, keys.metadata);
    AnswerIsKept(t, keys.metadata, {});
    ContentLengthKeepsDistinct(t, keys, parse, parseLegacy, print_);
    if data.None? || parse(data.value).None? {
      var (t2, legacy) := Resolve(t1, keys.range(0, 1));
      if legacy.Some? && parseLegacy(legacy.value).Some? {
        var len := parseLegacy(legacy.value).value;
        ResolveKeepsDistinct(t, keys.metadata);
        ResolveKeepsDistinct(t1, keys.range(0, 1));
        PurgeIsExact(t2, keys.range(0, 1));
        var t3 := Purge(t2, keys.range(0, 1));
        ResolveKeepsLimits(t, keys.metadata);
        ResolveKeepsLimits(t1, keys.range(0, 1));
        hide Purge;
        PutIsYoungest(t3.memory, keys.metadata, print_(len), t3.memoryMax);
        if |print_(len)| <= t.memoryMax {
          AnswersFromMemory(ContentLength(t, keys, parse, parseLegacy, print_).0, Slot(keys.metadata, print_(len)));
        }
      }
    }
  }

  lemma ResolveKeepsLimits(t: Tiers, key: string)
    ensures Resolve(t, key).0.memoryMax == t.memoryMax && Purge(Resolve(t, key).0, key).memoryMax == t.memoryMax
  {
  }

  lemma AbsentWithoutFiles(t: Tiers, files: set<string>)
    ensures forall key :: Absent(WithoutFiles(t, files), key) <==> Absent(t, key)
  {
  }

  lemma CellsInside(n: int, seg: int, k: nat)
    requires seg > 0 && seg * k < n
    ensures k < ClampedSegments(k + 1, n, seg)
  {
    CellBeginsInside(n, seg, k);
    hide TotalSegments;
    assert seg * k >= 0;
  }

  /** A removal that finds the length of a file cached, as metadata or in the legacy slot, clears every cell
      that begins inside the file from both tiers, along with the file itself and its metadata. */
  lemma {:induction false} RemovalFindsTheCells(t: Tiers, keys: UrlKeys, seg: int, parse: Bytes -> Option<int>,
                                                parseLegacy: Bytes -> Option<int>, print_: int -> Bytes,
                                                registered: Option<string>, strays: seq<string>, files: set<string>, n: int)
    requires seg > 0 && Distinct(t) && n > 0
    requires var (t1, data) := Resolve(t, keys.metadata);
             var legacy := Resolve(t1, keys.range(0, 1)).1;
             || (data.Some? && parse(data.value) == Some(n))
             || ((data.Some? ==> parse(data.value).None?) && legacy.Some? && parseLegacy(legacy.value) == Some(n))
    ensures var (t1, len) := ContentLength(t, keys, parse, parseLegacy, print_);
            var r := WithoutFiles(PurgeSeq(t1, RemovalNames(keys, seg, len, registered, strays)), files);
            && Absent(r, keys.full) && Absent(r, keys.metadata)
            && forall k: nat | seg * k < n :: Absent(r, keys.range(seg * k, seg * k + seg - 1))
  {
    ContentLengthIs(t, keys, parse, parseLegacy, print_);
    ContentLengthKeepsDistinct(t, keys, parse, parseLegacy, print_);
    hide Resolve, PurgeSeq, RemovalNames, TotalSegments, ClampedSegments, ContentLength, Absent, Distinct, WithoutFiles;
    var (t1, len) := ContentLength(t, keys, parse, parseLegacy, print_);
    var r := PurgeSeq(t1, RemovalNames(keys, seg, len, registered, strays));
    RemovalIsComplete(t1, keys, seg, len, registered, strays);
    AbsentWithoutFiles(r, files);
    assert len == Some(n);
    forall k: nat | seg * k < n ensures Absent(WithoutFiles(r, files), keys.range(seg * k, seg * k + seg - 1)) {
      CellsInside(n, seg, k);
      assert Cell(k, seg) == (seg * k, seg * k + seg - 1);
      assert Absent(r, keys.range(Cell(k, seg).0, Cell(k, seg).1));
    }
  }

  lemma OneStep(t: Tiers)
    ensures Run(t, []) == t && AllSensible(t, [])
  {
  }

  lemma MissIsUnknown(t: Tiers, key: string)
    requires Distinct(t) && Resolve(t, key).1.None?
    ensures Distinct(Resolve(t, key).0) && key !in KeysOf(Resolve(t, key).0.storage.index)
  {
    RemovalFacts(t.storage.index, key);
  }

  /** Resolving and purging one key makes no other known to storage. */
  lemma StillUnknown(t: Tiers, other: string, key: string)
    requires Distinct(t) && key !in KeysOf(t.storage.index)
    ensures key !in KeysOf(Purge(Resolve(t, other).0, other).storage.index)
  {
    hide KeysOf, Insert, Without, IndexOf, MemoryPut;
    RemovalFacts(t.storage.index, other);
    TouchFacts(t.storage.index, other);
    var r := Resolve(t, other).0;
    RemovalFacts(r.storage.index, other);
  }

  class LruCacheSingleton {
    const memory: LruCacheMemory
    const storage: LruCacheStorage

    constructor (memory: LruCacheMemory, storage: LruCacheStorage)
      ensures this.memory == memory && this.storage == storage
    {
      this.memory, this.storage := memory, storage;
    }

    ghost predicate Valid()
      reads this, memory, storage, storage.disk
    {
      memory.Valid() && storage.Valid()
    }

    function State(): Tiers
      reads memory, storage, storage.disk
    {
      Tiers(memory.map_, memory.maxSize, storage.State(), storage.maxSize)
    }

    /** storage_get: the path the index gives, read from disk. */
    method StorageGetBytes(key: string) returns (data: Option<Bytes>)
      requires Valid() && key != ""
      modifies storage, storage.disk
      ensures Valid() && storage.maxSize == old(storage.maxSize)
      ensures var (st, path) := StorageGet(old(storage.State()), key);
              storage.State() == st
              && data == if path.Some? && path.value in st.files then Some(st.files[path.value]) else None
    {
      hide StorageGet, Consistent, StorageSize;
      var path := storage.Get(key);
      if path.Some? && path.value in storage.disk.files {
        return Some(storage.disk.files[path.value]);
      }
      return None;
    }

    method ReadBytesFromCache(key: string) returns (data: Option<Bytes>)
      requires Valid() && key != ""
      modifies memory, storage, storage.disk
      ensures Valid() && (State(), data) == Resolve(old(State()), key)
      ensures State() == Next(old(State()), Resolved(key))
    {
      data := memory.Get(key);
      if data.Some? {
        return;
      }
      data := StorageGetBytes(key);
      if data.Some? {
        var _ := memory.Put(key, data.value);
      }
    }

    method PurgeCacheEntry(key: string)
      requires Valid() && key != ""
      modifies memory, storage, storage.disk
      ensures Valid() && State() == Purge(old(State()), key)
      ensures State() == Next(old(State()), Purged(key))
    {
      var _ := storage.Remove(key);
      var _ := memory.Remove(key);
    }

    /** The cache's part of finish_pool_download: rename, memory_put, storage_put. */
    method FinishDownload(key: string, path: string, data: Bytes)
      requires Valid() && key != "" && data != []
      modifies memory, storage, storage.disk
      ensures Valid() && State() == Complete(old(State()), key, path, data)
      ensures State() == Next(old(State()), Completed(key, path, data))
    {
      storage.disk.files := storage.disk.files[path := data];
      var _ := memory.Put(key, data);
      storage.Put(key, path);
    }

    method ReadContentLength(keys: UrlKeys, parse: Bytes -> Option<int>, parseLegacy: Bytes -> Option<int>,
                             print_: int -> Bytes) returns (len: Option<int>)
      requires Valid() && keys.Valid()
      modifies memory, storage, storage.disk
      ensures Valid()
      ensures (State(), len) == ContentLength(old(State()), keys, parse, parseLegacy, print_)
    {
      hide Resolve, Purge, MemoryPut, Consistent, StorageSize, Lengths, Sum, DistinctKeys;
      var data := ReadBytesFromCache(keys.metadata);
      if data.Some? && parse(data.value).Some? {
        return parse(data.value);
      }
      var legacyKey := keys.range(0, 1);
      var legacy := ReadBytesFromCache(legacyKey);
      if legacy.None? || parseLegacy(legacy.value).None? {
        return None;
      }
      len := parseLegacy(legacy.value);
      PurgeCacheEntry(legacyKey);
      var _ := memory.Put(keys.metadata, print_(len.value));
    }

    /** remove_single_entry.  The scan of the url's directory, if there is one, purges every file name
        and then deletes the files, whose paths are `directory`. */
    method RemoveSingleEntry(keys: UrlKeys, seg: int, parse: Bytes -> Option<int>, parseLegacy: Bytes -> Option<int>,
                             print_: int -> Bytes, registered: Option<string>, strays: seq<string>,
                             directory: set<string>)
      returns (len: Option<int>)
      requires Valid() && keys.Valid() && seg > 0
      requires registered.Some? ==> registered.value != ""
      requires forall i | 0 <= i < |strays| :: strays[i] != ""
      modifies memory, storage, storage.disk
      ensures Valid()
      ensures var read := ContentLength(old(State()), keys, parse, parseLegacy, print_);
              len == read.1 &&
              State() == WithoutFiles(PurgeSeq(read.0, RemovalNames(keys, seg, len, registered, strays)), directory)
      ensures directory !! State().storage.files.Keys
    {
      len := ReadContentLength(keys, parse, parseLegacy, print_);
      hide ContentLength, PurgeSeq, Purge, TotalSegments, GridNames, Cell, Consistent, StorageSize, Sum, DistinctKeys;
      ghost var t := State();
      PurgedNothing(t);
      ghost var gone := PurgeMore(keys.full, t, []);
      assert gone == [keys.full];
      gone := PurgeMore(keys.metadata, t, gone);
      if len.Some? {
        gone := PurgeGrid(keys, seg, len.value, t, gone);
      }
      gone := PurgeMore(keys.range(0, 1), t, gone);
      if keys.full != keys.directory {
        gone := PurgeMore(keys.directory, t, gone);
      }
      if registered.Some? && registered.value != keys.full {
        gone := PurgeMore(registered.value, t, gone);
      }
      gone := PurgeAll(strays, t, gone);
      DeleteFiles(directory);
    }

    /** remove_dir_all. */
    method DeleteFiles(paths: set<string>)
      requires Valid()
      modifies storage.disk
      ensures Valid() && State() == WithoutFiles(old(State()), paths)
    {
      storage.disk.files := storage.disk.files - paths;
    }

    method PurgeAll(names: seq<string>, ghost t: Tiers, ghost gone: seq<string>) returns (ghost more: seq<string>)
      requires Valid() && State() == PurgeSeq(t, gone)
      requires forall i | 0 <= i < |names| :: names[i] != ""
      modifies memory, storage, storage.disk
      ensures Valid() && more == gone + names && State() == PurgeSeq(t, more)
    {
      hide Purge, PurgeSeq;
      more := gone;
      for i := 0 to |names|
        invariant Valid() && more == gone + names[..i] && State() == PurgeSeq(t, more)
      {
        more := PurgeMore(names[i], t, more);
      }
    }

    /** The grid loop of remove_single_entry. */
    method PurgeGrid(keys: UrlKeys, seg: int, len: int, ghost t: Tiers, ghost gone: seq<string>)
      returns (ghost more: seq<string>)
      requires Valid() && keys.Valid() && seg > 0 && State() == PurgeSeq(t, gone)
      modifies memory, storage, storage.disk
      ensures Valid() && more == gone + GridNames(keys, seg, TotalSegments(len, seg)) && State() == PurgeSeq(t, more)
    {
      hide Purge, PurgeSeq, TotalSegments, GridNames, Consistent, StorageSize, Lengths, Sum, DistinctKeys;
      more := gone;
      var total := TotalSegments(len, seg);
      var count := 0;
      GridStarts(keys, seg, total);
      while count < total
        invariant 0 <= count && (count <= total || count == 0) && Valid()
        invariant more == gone + GridNames(keys, seg, count) && State() == PurgeSeq(t, more)
      {
        GridNext(keys, seg, count);
        var cell := Cell(count, seg);
        more := PurgeMore(keys.range(cell.0, cell.1), t, more);
        count := count + 1;
      }
    }

    /** One more key after those already gone. */
    method PurgeMore(key: string, ghost t: Tiers, ghost gone: seq<string>) returns (ghost more: seq<string>)
      requires Valid() && key != "" && State() == PurgeSeq(t, gone)
      modifies memory, storage, storage.disk
      ensures Valid() && more == gone + [key] && State() == PurgeSeq(t, more)
    {
      PurgeCacheEntry(key);
      PurgeOneMore(t, gone, key);
      more := gone + [key];
    }
  }

  lemma PurgedNothing(t: Tiers)
    ensures PurgeSeq(t, []) == t
  {
  }
}
