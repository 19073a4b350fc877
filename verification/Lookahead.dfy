/** The bounded lookahead that a cache miss starts before it downloads its own segment. */
module Lookahead {
  import opened RangeServing

  datatype PoolTask = PoolTask(url: string, entry: string)

  const I64_MAX := 0x7FFF_FFFF_FFFF_FFFF
  const MAX_LOOKAHEAD_SKIPS := 128

  /** Tasks of the pool that download `url`. */
  function ActiveSize(pool: seq<PoolTask>, url: string): nat {
    if pool == [] then 0 else (if pool[0].url == url then 1 else 0) + ActiveSize(pool[1..], url)
  }

  lemma {:induction false} ActiveSizeOfJoin(a: seq<PoolTask>, b: seq<PoolTask>, url: string)
    ensures ActiveSize(a + b, url) == ActiveSize(a, url) + ActiveSize(b, url)
  {
    if a == [] {
      assert a + b == b;
    } else {
      ActiveSizeOfJoin(a[1..], b, url);
      assert (a + b)[1..] == a[1..] + b;
    }
  }

  ghost function SlotsOf(pool: seq<PoolTask>, url: string): set<int> { set i | 0 <= i < |pool| && pool[i].url == url }

  /** It counts the slots of the list with a task of the url. */
  lemma {:induction false} ActiveSizeCounts(pool: seq<PoolTask>, url: string)
    ensures ActiveSize(pool, url) == |set i | 0 <= i < |pool| && pool[i].url == url|
  {
    if pool == [] {
      assert SlotsOf(pool, url) == {};
    } else {
      var n := |pool| - 1;
      assert pool[..n] + [pool[n]] == pool;
      assert ActiveSize([pool[n]], url) == if pool[n].url == url then 1 else 0;
      ActiveSizeOfJoin(pool[..n], [pool[n]], url);
      ActiveSizeCounts(pool[..n], url);
      assert SlotsOf(pool[..n], url) == set i | 0 <= i < n && pool[..n][i].url == url;
      OneSlotMore(pool[..n], pool[n], url);
      hide ActiveSize;
      assert SlotsOf(pool, url) == set i | 0 <= i < |pool| && pool[i].url == url;
    }
  }

  lemma OneSlotMore(pool: seq<PoolTask>, task: PoolTask, url: string)
    ensures SlotsOf(pool + [task], url) == SlotsOf(pool, url) + if task.url == url then {|pool|} else {}
  {
    var more := pool + [task];
    assert forall i | 0 <= i < |pool| :: more[i] == pool[i];
  }

  predicate EntryQueued(pool: seq<PoolTask>, entry: string) {
    exists i | 0 <= i < |pool| :: pool[i].entry == entry
  }

  /** End of the window that starts at `start`: two segments, cut to the file when its length is known. */
  function WindowEnd(start: int, seg: int, contentLength: int): int {
    Min(start + seg * 2 - 1, if contentLength > 0 then contentLength - 1 else I64_MAX)
  }

  /** A window that lookahead may submit from the segment at `origin`. */
  predicate Window(w: (int, int), origin: int, seg: int, contentLength: int)
    requires seg > 0
  {
    && w.0 > origin && OnGrid(w.0 - origin, seg)
    && w.1 == WindowEnd(w.0, seg, contentLength)
    && (contentLength > 0 ==> w.0 <= w.1 < contentLength)
  }

  /** What a submission adds after `late` tasks: nothing when one of them has its entry. */
  function Addition(pool: seq<PoolTask>, late: seq<PoolTask>, task: PoolTask): seq<PoolTask> {
    if EntryQueued(pool + late, task.entry) then late else late + [task]
  }

  ghost predicate OneTaskPerEntry(pool: seq<PoolTask>) {
    forall i, j | 0 <= i < j < |pool| :: pool[i].entry != pool[j].entry
  }

  /** A submission never gives an entry a second task. */
  lemma AdditionKeepsOnePerEntry(pool: seq<PoolTask>, late: seq<PoolTask>, task: PoolTask)
    requires OneTaskPerEntry(pool + late)
    ensures OneTaskPerEntry(pool + Addition(pool, late, task))
  {
    assert pool + (late + [task]) == (pool + late) + [task];
  }

  /** Whoever wins the race for the entry, the pool has it afterwards, under this url. */
  lemma AdditionGrows(pool: seq<PoolTask>, late: seq<PoolTask>, task: PoolTask)
    requires !EntryQueued(pool, task.entry)
    requires forall i | 0 <= i < |late| :: late[i].entry == task.entry ==> late[i].url == task.url
    ensures EntryQueued(pool + Addition(pool, late, task), task.entry)
    ensures ActiveSize(Addition(pool, late, task), task.url) >= 1
  {
    var more := Addition(pool, late, task);
    if EntryQueued(pool + late, task.entry) {
      var i :| 0 <= i < |pool + late| && (pool + late)[i].entry == task.entry;
      assert i >= |pool| && late[i - |pool|].url == task.url;
      ActiveAt(late, i - |pool|, task.url);
    } else {
      assert (pool + more)[|pool + late|].entry == task.entry;
      ActiveAt(more, |late|, task.url);
    }
  }

  lemma {:induction false} ActiveAt(pool: seq<PoolTask>, i: nat, url: string)
    requires i < |pool| && pool[i].url == url
    ensures ActiveSize(pool, url) >= 1
  {
    if i > 0 {
      ActiveAt(pool[1..], i - 1, url);
    }
  }

  /** Where the k-th iteration looks. */
  function StartAt(origin: int, seg: int, k: nat): int {
    if k == 0 then origin else StartAt(origin, seg, k - 1) + seg
  }

  lemma {:induction false} StartAtIs(origin: int, seg: int, k: nat)
    ensures StartAt(origin, seg, k) == origin + k * seg
  {
    if k > 0 {
      StartAtIs(origin, seg, k - 1);
      assert k * seg == (k - 1) * seg + seg;
    }
  }

  /** The window of the k-th iteration is past the file, queued, or cached when it was looked at. */
  predicate Settled(k: nat, origin: int, seg: int, contentLength: int, pool: seq<PoolTask>,
                    entryOf: (int, int) -> string, cached: (nat, string) -> bool)
  {
    var start := StartAt(origin, seg, k);
    var entry := entryOf(start, WindowEnd(start, seg, contentLength));
    (contentLength > 0 && start >= contentLength) || EntryQueued(pool, entry) || cached(k, entry)
  }

  predicate Fresh(k: nat, w: (int, int), origin: int, seg: int,
                  entryOf: (int, int) -> string, cached: (nat, string) -> bool)
  {
    w.0 == StartAt(origin, seg, k) && !cached(k, entryOf(w.0, w.1))
  }

  lemma SettledNow(k: nat, origin: int, seg: int, contentLength: int, pool: seq<PoolTask>,
                   entryOf: (int, int) -> string, cached: (nat, string) -> bool)
    requires var start := StartAt(origin, seg, k);
             var entry := entryOf(start, WindowEnd(start, seg, contentLength));
             (contentLength > 0 && start >= contentLength) || EntryQueued(pool, entry) || cached(k, entry)
    ensures Settled(k, origin, seg, contentLength, pool, entryOf, cached)
  {
  }

  ghost predicate Chosen(n: nat, w: (int, int), origin: int, seg: int,
                         entryOf: (int, int) -> string, cached: (nat, string) -> bool)
  {
    exists k: nat :: 1 <= k <= n && Fresh(k, w, origin, seg, entryOf, cached)
  }

  lemma ChosenStays(n: nat, submitted: seq<(int, int)>, origin: int, seg: int,
                    entryOf: (int, int) -> string, cached: (nat, string) -> bool)
    requires forall w | w in submitted :: Chosen(n, w, origin, seg, entryOf, cached)
    ensures forall w | w in submitted :: Chosen(n + 1, w, origin, seg, entryOf, cached)
  {
    forall w | w in submitted ensures Chosen(n + 1, w, origin, seg, entryOf, cached) {
      var k: nat :| 1 <= k <= n && Fresh(k, w, origin, seg, entryOf, cached);
    }
  }

  lemma ChosenNow(n: nat, w: (int, int), origin: int, seg: int,
                  entryOf: (int, int) -> string, cached: (nat, string) -> bool)
    requires n >= 1 && Fresh(n, w, origin, seg, entryOf, cached)
    ensures Chosen(n, w, origin, seg, entryOf, cached)
  {
  }

  lemma SettledStays(k: nat, origin: int, seg: int, contentLength: int, pool: seq<PoolTask>, more: seq<PoolTask>,
                     entryOf: (int, int) -> string, cached: (nat, string) -> bool)
    requires Settled(k, origin, seg, contentLength, pool, entryOf, cached)
    ensures Settled(k, origin, seg, contentLength, pool + more, entryOf, cached)
  {
    var start := StartAt(origin, seg, k);
    var entry := entryOf(start, WindowEnd(start, seg, contentLength));
    if EntryQueued(pool, entry) {
      var i :| 0 <= i < |pool| && pool[i].entry == entry;
      assert (pool + more)[i].entry == entry;
    }
  }

  /** concurrent.  `arrivals(k)` are tasks that others add before the k-th iteration and `late(k)`
      those between its check and its submission, which then may add nothing; nothing leaves the
      pool.  `cached(k, entry)` says that memory or the file system has the entry. */
  method Concurrent(url: string, origin: int, seg: int, contentLength: int, pool0: seq<PoolTask>,
                    entryOf: (int, int) -> string, cached: (nat, string) -> bool,
                    arrivals: nat -> seq<PoolTask>, late: nat -> seq<PoolTask>)
    returns (pool: seq<PoolTask>, submitted: seq<(int, int)>, iterations: nat, start: int)
    requires seg > 0
    // the entries of this url's ranges are queued for this url only
    requires forall k, i, a, b | 0 <= i < |late(k)| :: late(k)[i].entry == entryOf(a, b) ==> late(k)[i].url == url
    ensures iterations <= 256 && |submitted| <= 2
    // every submission goes with one more task of this url in the pool
    ensures pool0 <= pool && ActiveSize(pool, url) >= ActiveSize(pool0, url) + |submitted|
    ensures forall w | w in submitted :: Window(w, origin, seg, contentLength)
    // each two segments wide, unless the file, or the range of 64-bit numbers, ends before
    ensures forall w | w in submitted ::
              && (contentLength > 0 ==>
                    w.1 == if w.0 + 2 * seg < contentLength then w.0 + 2 * seg - 1 else contentLength - 1)
              && (contentLength <= 0 && w.0 + 2 * seg <= 0x8000_0000_0000_0000 ==> w.1 == w.0 + 2 * seg - 1)
    // no window is asked for twice
    ensures forall i, j | 0 <= i < j < |submitted| :: submitted[i].0 < submitted[j].0
    // each window looked at ends up queued unless it was cached; none that was cached is submitted
    ensures forall k: nat | 1 <= k <= iterations :: Settled(k, origin, seg, contentLength, pool, entryOf, cached)
    ensures forall w | w in submitted :: Chosen(iterations, w, origin, seg, entryOf, cached)
    // no segment is passed over
    ensures start == origin + iterations * seg
    // the walk only stops for a reason: 128 windows in a row that were queued or cached
    ensures || ActiveSize(pool, url) >= 2
            || (contentLength > 0 && start >= contentLength)
            || (iterations >= 128 && forall w | w in submitted :: w.0 <= start - 128 * seg)
  {
    hide Chosen, Settled, ActiveSize, EntryQueued, Addition, StartAt;
    pool, submitted, iterations := pool0, [], 0;
    start := origin;
    var skipped := 0;
    var activeSize := ActiveSize(pool, url);
    while activeSize < 2
      invariant 0 <= skipped < MAX_LOOKAHEAD_SKIPS && activeSize <= ActiveSize(pool, url)
      invariant skipped <= iterations <= MAX_LOOKAHEAD_SKIPS * |submitted| + skipped
      invariant |submitted| == 2 ==> skipped == 0
      invariant |submitted| + ActiveSize(pool0, url) <= activeSize && |submitted| <= 2 && pool0 <= pool
      invariant start >= origin && OnGrid(start - origin, seg) && start == origin + iterations * seg
      invariant forall k: nat | 1 <= k <= iterations :: Settled(k, origin, seg, contentLength, pool, entryOf, cached)
      invariant forall w | w in submitted :: Chosen(iterations, w, origin, seg, entryOf, cached)
      invariant forall w | w in submitted :: Window(w, origin, seg, contentLength)
      invariant forall i | 0 <= i < |submitted| :: submitted[i].0 + skipped * seg <= start
      invariant forall i, j | 0 <= i < j < |submitted| :: submitted[i].0 < submitted[j].0
      decreases 2 - |submitted|, MAX_LOOKAHEAD_SKIPS - skipped
    {
      ActiveSizeOfJoin(pool, arrivals(iterations), url);
      forall k: nat | 1 <= k <= iterations
        ensures Settled(k, origin, seg, contentLength, pool + arrivals(iterations), entryOf, cached)
      {
        SettledStays(k, origin, seg, contentLength, pool, arrivals(iterations), entryOf, cached);
      }
      ChosenStays(iterations, submitted, origin, seg, entryOf, cached);
      pool := pool + arrivals(iterations);
      iterations := iterations + 1;
      start := start + seg;
      assert iterations * seg == (iterations - 1) * seg + seg;
      StartAtIs(origin, seg, iterations);
      assert OnGrid(start - origin, seg) by {
        assert OnGrid((start - origin) - seg, seg);
      }
      if contentLength > 0 && start >= contentLength {
        SettledNow(iterations, origin, seg, contentLength, pool, entryOf, cached);
        break;
      }
      var end := WindowEnd(start, seg, contentLength);
      var entry := entryOf(start, end);
      if EntryQueued(pool, entry) || cached(iterations, entry) {
        SettledNow(iterations, origin, seg, contentLength, pool, entryOf, cached);
        skipped := skipped + 1;
        assert skipped * seg == (skipped - 1) * seg + seg;
        if skipped >= MAX_LOOKAHEAD_SKIPS {
          break;
        }
        continue;
      }
      skipped := 0;
      var more := Addition(pool, late(iterations), PoolTask(url, entry));
      AdditionGrows(pool, late(iterations), PoolTask(url, entry));
      ActiveSizeOfJoin(pool, more, url);
      forall k: nat | 1 <= k < iterations
        ensures Settled(k, origin, seg, contentLength, pool + more, entryOf, cached)
      {
        SettledStays(k, origin, seg, contentLength, pool, more, entryOf, cached);
      }
      SettledNow(iterations, origin, seg, contentLength, pool + more, entryOf, cached);
      ChosenNow(iterations, (start, end), origin, seg, entryOf, cached);
      pool := pool + more;
      submitted := submitted + [(start, end)];
      activeSize := ActiveSize(pool, url);
    }
  }

  /** A lookahead window is two segments wide.  A request s..=e inside the file, served in Default
      mode, asks for it exactly when the file ends one segment after the window's start; in MP4 mode,
      which clamps the last request, when the file ends within that segment and the request runs to
      the end of the file. */
  lemma {:induction false} WindowIsServedKeyExactly(w: (int, int), origin: int, seg: int, contentLength: int,
                                                    s: int, e: int)
    requires seg > 0 && contentLength > 0 && 0 <= origin && OnGrid(origin, seg)
    requires Window(w, origin, seg, contentLength) && 0 <= s <= e < contentLength
    ensures InRangeRequest(w, s, e, seg, Default) <==>
            Touches(w, s, e, seg) && contentLength == w.0 + seg
    ensures InRangeRequest(w, s, e, seg, Mp4) <==>
            Touches(w, s, e, seg) && contentLength <= w.0 + seg && e == contentLength - 1
  {
    GridShift(origin, w.0 - origin, seg);
  }

  /** The window starts in a segment that the request s..=e touches. */
  predicate Touches(w: (int, int), s: int, e: int, seg: int) { s < w.0 + seg && w.0 <= e }

  /** While the length is unknown no window is ever a key that serving asks for. */
  lemma UnknownLengthWindowsAreNotServed(w: (int, int), origin: int, seg: int, contentLength: int,
                                         s: int, e: int, mode: Mode)
    requires seg > 0 && contentLength <= 0 && Window(w, origin, seg, contentLength)
    requires w.0 + seg * 2 - 1 <= I64_MAX && s <= e
    ensures !InRangeRequest(w, s, e, seg, mode)
  {
  }

  lemma {:induction false} GridShift(a: int, d: int, seg: int)
    requires seg > 0 && OnGrid(a, seg) && OnGrid(d, seg) && d >= 0
    ensures OnGrid(a + d, seg)
    decreases d
  {
    if d >= seg {
      GridShift(a, d - seg, seg);
    }
  }
}
