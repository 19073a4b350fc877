/** Serving a byte range by stitching grid-aligned segments together. */
module RangeServing {
  import opened Wrappers

  datatype Mode = Default | Mp4

  /** How the serving loop ended. Panicked: a slice bound outside the fetched data. */
  datatype Outcome = Done | GaveUp | WriterClosed | Panicked

  /** Bytes `a..=b` of the file, as far as the file has them. */
  function Slice(file: seq<Byte>, a: int, b: int): seq<Byte>
    requires a >= 0
  {
    if a > b || a >= |file| then [] else file[a..if b < |file| then b + 1 else |file|]
  }

  /** `fetch(k, a, b)` is what the k-th request, for bytes a..=b, brings: those bytes or nothing. */
  ghost predicate Honest(file: seq<Byte>, fetch: (nat, int, int) -> Option<seq<Byte>>) {
    forall k: nat, a: int, b: int | a >= 0 ::
      fetch(k, a, b).Some? ==> fetch(k, a, b).value == Slice(file, a, b)
  }

  /** How many of the requests from the k-th on brought nothing. */
  ghost function Misses(fetch: (nat, int, int) -> Option<seq<Byte>>, requests: seq<(int, int)>): nat {
    if requests == [] then 0
    else
      var k := |requests| - 1;
      Misses(fetch, requests[..k]) + if fetch(k, requests[k].0, requests[k].1).None? then 1 else 0
  }

  /** Start of a grid cell: 0, seg, 2*seg, ...  GridIsMultiples relates it to `%`. */
  predicate OnGrid(x: int, seg: int)
    requires seg > 0
    decreases x
  {
    x == 0 || (x >= seg && OnGrid(x - seg, seg))
  }

  /** A key that precache stores: [k*seg, (k+1)*seg-1]. */
  predicate GridRange(r: (int, int), seg: int)
    requires seg > 0
  {
    OnGrid(r.0, seg) && r.1 == r.0 + seg - 1
  }

  /** Rust's `as usize` on a 64-bit target. */
  function AsUsize(x: int): int { if x < 0 then x + 0x1_0000_0000_0000_0000 else x }

  /** The part of one fetched segment that goes to the client; None when slicing panics. */
  function Chunk(data: seq<Byte>, start: int, end: int, s: int, e: int): Option<seq<Byte>> {
    var startIndex := if start < s then s - start else 0;
    var endIndex := if end > e then AsUsize(e - start + 1) else |data|;
    if startIndex > 0 || endIndex < |data| then
      if startIndex <= endIndex <= |data| then Some(data[startIndex..endIndex]) else None
    else Some(data)
  }

  function Max(a: int, b: int): int { if a < b then b else a }

  function Min(a: int, b: int): int { if a < b then a else b }

  /** What the client has once every segment before `start` is served. */
  function Served(file: seq<Byte>, s: int, e: int, start: int): seq<Byte>
    requires s >= 0
  {
    Slice(file, s, Min(start - 1, e))
  }

  lemma SliceOfSlice(file: seq<Byte>, a: int, b: int, i: int, j: int)
    requires 0 <= a <= b <= |file| && 0 <= i <= j <= b - a
    ensures file[a..b][i..j] == file[a + i..a + j]
  {
    var x, y := file[a..b][i..j], file[a + i..a + j];
    forall k | 0 <= k < |x| ensures x[k] == y[k] {
    }
  }

  /** Honest data, cut by Chunk, is exactly the overlap of the segment with the request. */
  lemma ChunkIsOverlap(file: seq<Byte>, start: int, end: int, s: int, e: int)
    requires 0 <= start <= e && 0 <= s <= e
    ensures var c := Chunk(Slice(file, start, end), start, end, s, e);
            c.Some? ==> c.value == Slice(file, Max(s, start), Min(end, e))
  {
    var data := Slice(file, start, end);
    if data != [] {
      var last := Min(end, |file| - 1);
      assert data == file[start..last + 1];
      var i := Max(s - start, 0);
      var j := if end > e then e - start + 1 else |data|;
      if i <= j <= |data| {
        SliceOfSlice(file, start, last + 1, i, j);
      }
    }
  }

  /** A request that starts past the end of the file gets nothing. */
  lemma PastEndGetsNothing(file: seq<Byte>, start: int, end: int, s: int, e: int)
    requires 0 <= start && 0 <= e < s && e == |file| - 1
    ensures var c := Chunk(Slice(file, start, end), start, end, s, e);
            c.Some? ==> c.value == []
  {
    var data := Slice(file, start, end);
    if start < s {
      assert |data| <= Max(0, |file| - start);
    } else {
      assert data == [];
    }
  }

  /** No slice panics while the request lies in the file and meets the segment. */
  lemma NoPanicInsideFile(file: seq<Byte>, start: int, end: int, s: int, e: int)
    requires 0 <= start <= e && 0 <= s <= e < |file| && start <= end && s <= end
    ensures Chunk(Slice(file, start, end), start, end, s, e).Some?
  {
  }

  /** Exactly when slicing panics, for a segment that reaches up to the first byte asked for: it begins before
      that byte, and the file ends before it too, or the segment runs past the last byte asked for, which lies
      before the first or past the end of the file.  A segment wholly past the last byte is not cut. */
  lemma {:induction false} ChunkPanicsExactly(file: seq<Byte>, start: int, end: int, s: int, e: int)
    requires 0 <= start <= end && 0 <= s <= end + 1 && 0 <= e + 1
    requires |file| < 0x8000_0000_0000_0000 && start < 0x8000_0000_0000_0000
    ensures Chunk(Slice(file, start, end), start, end, s, e).None? <==>
            start < s && (|file| < s || (end > e && (e + 1 < s || |file| <= e)))
    ensures s <= start && e + 1 < start ==>
              Chunk(Slice(file, start, end), start, end, s, e) == Some(Slice(file, start, end))
  {
    var data := Slice(file, start, end);
    assert |data| == if start >= |file| then 0 else Min(end + 1, |file|) - start;
  }

  lemma SlicesJoin(file: seq<Byte>, a: int, m: int, b: int)
    requires 0 <= a && 0 <= m && m - 1 <= b
    ensures Slice(file, a, m - 1) + Slice(file, Max(a, m), b) == Slice(file, a, b)
  {
  }

  lemma ServedIsPrefix(file: seq<Byte>, s: int, e: int, start: int)
    requires s >= 0
    ensures Served(file, s, e, start) <= Slice(file, s, e)
  {
  }

  /** The bytes a client takes from a chunk before it closes. */
  function Taken(chunk: seq<Byte>, closed: Option<nat>): (sent: seq<Byte>)
    ensures sent <= chunk && |sent| == if closed.None? then |chunk| else Min(closed.value, |chunk|)
  {
    if closed.Some? && closed.value < |chunk| then chunk[..closed.value] else chunk
  }

  lemma TakenStaysPrefix(before: seq<Byte>, chunk: seq<Byte>, closed: Option<nat>, whole: seq<Byte>)
    requires before + chunk <= whole
    ensures before + Taken(chunk, closed) <= whole
  {
    var sent := Taken(chunk, closed);
    assert before + chunk == (before + sent) + chunk[|sent|..];
  }

  /** One served segment takes the client from Served(start) to Served(start + seg). */
  lemma SegmentServed(file: seq<Byte>, s: int, e: int, seg: int, start: int, end: int)
    requires 0 <= s && 0 <= e && 0 < seg && 0 <= start && (e < s ==> e == |file| - 1)
    requires start + seg > s && (s <= e ==> start <= e)
    requires end == start + seg - 1 || end == e < start + seg - 1
    ensures var c := Chunk(Slice(file, start, end), start, end, s, e);
            && (c.Some? ==> Served(file, s, e, start) + c.value == Served(file, s, e, start + seg))
            && (c.Some? ==> Served(file, s, e, start) + c.value <= Slice(file, s, e))
            && (s <= e < |file| ==> c.Some?)
  {
    ServedIsPrefix(file, s, e, start + seg);
    if e < s {
      PastEndGetsNothing(file, start, end, s, e);
    } else {
      ChunkIsOverlap(file, start, end, s, e);
      assert Min(end, e) == Min(start + seg - 1, e);
      SlicesJoin(file, s, start, Min(end, e));
      if e < |file| {
        NoPanicInsideFile(file, start, end, s, e);
      }
    }
  }

  /** Grid cells from `start` on that begin at or before `e`. */
  ghost function CellsLeft(start: int, e: int, seg: int): nat
    requires seg > 0
    decreases Max(0, e + 1 - start)
  {
    if start > e then 0 else 1 + CellsLeft(start + seg, e, seg)
  }

  lemma {:induction false} CellsCounted(start: int, e: int, seg: int)
    requires seg > 0 && 0 <= start <= e && start % seg == 0
    ensures CellsLeft(start, e, seg) == e / seg - start / seg + 1
    decreases e - start
  {
    NextCell(start, seg);
    if start + seg <= e {
      CellsCounted(start + seg, e, seg);
    } else {
      SameQuotient(start, e, seg);
    }
  }

  lemma {:induction false} NextCell(start: int, seg: int)
    requires seg > 0 && start % seg == 0
    ensures (start + seg) % seg == 0 && (start + seg) / seg == start / seg + 1
  {
    var q := start / seg;
    assert start + seg == (q + 1) * seg + 0;
    QuotientUnique(start + seg, q + 1, 0, seg);
  }

  lemma {:induction false} SameQuotient(start: int, e: int, seg: int)
    requires seg > 0 && start % seg == 0 && start <= e < start + seg
    ensures e / seg == start / seg
  {
    assert e == (start / seg) * seg + (e - start);
    QuotientUnique(e, start / seg, e - start, seg);
  }

  lemma {:induction false} GridIsMultiples(x: int, seg: int)
    requires seg > 0 && 0 <= x
    ensures OnGrid(x, seg) <==> x % seg == 0
    decreases x
  {
    if x >= seg {
      GridIsMultiples(x - seg, seg);
      var q := (x - seg) / seg;
      assert x == (q + 1) * seg + (x - seg) % seg;
      QuotientUnique(x, q + 1, (x - seg) % seg, seg);
    }
  }

  lemma {:induction false} QuotientUnique(x: int, q: int, m: int, seg: int)
    requires x == q * seg + m && 0 <= m < seg
    ensures x / seg == q && x % seg == m
  {
    var gap := x / seg - q;
    assert gap * seg == m - x % seg;
    assert gap >= 1 ==> gap * seg >= seg;
    assert gap <= -1 ==> gap * seg <= -seg;
  }

  lemma {:induction false} FirstCell(s: int, seg: int)
    requires seg > 0 && 0 <= s
    ensures var start := s - s % seg;
            0 <= start <= s < start + seg && start % seg == 0 && start / seg == s / seg
  {
    var start := s - s % seg;
    assert start == (s / seg) * seg + 0;
    QuotientUnique(start, s / seg, 0, seg);
  }

  /** A request the loop makes: on the grid, touching the range, and a whole grid cell unless
      MP4 mode clamps it to the end of the range. */
  predicate InRangeRequest(r: (int, int), s: int, e: int, seg: int, mode: Mode)
    requires seg > 0
  {
    && 0 <= r.0 && s < r.0 + seg && (s <= e ==> r.0 <= e)
    && OnGrid(r.0, seg)
    && r.1 == if mode == Mp4 && r.0 + seg - 1 > e then e else r.0 + seg - 1
  }

  // ---------------------------------------------------------------------------------------
  // One iteration of the loop

  /** What a serving loop works with.  `fetch(k, a, b)` is what the k-th request, for bytes a..=b,
      brings; `writer(k)` is None while the client reads, or the number of bytes it still took
      when it closed on the k-th request. */
  datatype Job = Job(file: seq<Byte>, s: int, e: int, seg: int, mode: Mode,
                     fetch: (nat, int, int) -> Option<seq<Byte>>, writer: nat -> Option<nat>)
  {
    /** Either the range is in order, or it starts past the end of the file it was clamped to. */
    ghost predicate Valid() {
      0 <= s && 0 <= e && seg > 0 && (s <= e || e == |file| - 1) && Honest(file, fetch)
    }
  }

  /** The loop variables, the bytes written and the requests made so far. */
  datatype Loop = Loop(start: int, end: int, retry: int, downloading: bool,
                       written: seq<Byte>, requests: seq<(int, int)>, outcome: Outcome)

  function ClampedEnd(job: Job, end: int): int {
    if job.mode == Mp4 && end > job.e then job.e else end
  }

  function Iterate(job: Job, l: Loop): Loop {
    var end := ClampedEnd(job, l.end);
    var k := |l.requests|;
    var data := job.fetch(k, l.start, end);
    var asked := l.(end := end, requests := l.requests + [(l.start, end)]);
    if data.None? then
      asked.(retry := l.retry - 1, outcome := if l.retry == 1 then GaveUp else l.outcome)
    else
      var chunk := Chunk(data.value, l.start, end, job.s, job.e);
      if chunk.None? then asked.(outcome := Panicked)
      else
        var next := l.start + job.seg;
        asked.(written := l.written + Taken(chunk.value, job.writer(k)),
               outcome := if job.writer(k).Some? then WriterClosed else l.outcome,
               start := next, end := next + job.seg - 1,
               downloading := job.writer(k).None? && next <= job.e)
  }

  /** The cursor stands on the grid, inside the request. */
  ghost predicate Cursor(job: Job, l: Loop)
    requires job.Valid()
  {
    && 0 <= l.start && job.s < l.start + job.seg && OnGrid(l.start, job.seg)
    && (l.end == l.start + job.seg - 1 || (job.mode == Mp4 && l.end == job.e < l.start + job.seg - 1))
    && (l.downloading ==> if job.s <= job.e then l.start <= job.e else l.start <= job.s)
  }

  ghost predicate Running(l: Loop) { l.downloading && l.outcome == Done && l.retry >= 1 }

  /** The bytes written so far. */
  ghost predicate Bytes(job: Job, l: Loop)
    requires job.Valid()
  {
    && l.written <= Slice(job.file, job.s, job.e)
    && (l.outcome == Done ==> l.written == Served(job.file, job.s, job.e, l.start))
    && (l.outcome == Done && !l.downloading ==> l.start > job.e)
    && (l.outcome == Panicked ==> job.e < job.s || |job.file| <= job.e)
    && (l.outcome == WriterClosed ==> l.requests != [] && job.writer(|l.requests| - 1).Some?)
  }

  /** The retries used so far and how many requests there may still be. */
  ghost predicate Retries(job: Job, l: Loop, first: int)
    requires job.Valid()
  {
    && 0 <= l.retry <= 3 && Misses(job.fetch, l.requests) == 3 - l.retry
    && (l.outcome == GaveUp <==> l.retry == 0)
    && |l.requests| + Budget(job, l.start) <=
       Budget(job, first) + 3 - l.retry + (if l.outcome == Panicked then 1 else 0)
    && (l.outcome == Panicked || l.outcome == GaveUp ==> Budget(job, l.start) >= 1)
  }

  ghost predicate AllInRange(job: Job, l: Loop)
    requires job.Valid()
  {
    forall r | r in l.requests :: InRangeRequest(r, job.s, job.e, job.seg, job.mode)
  }

  /** Everything the range needs before the cursor has been asked for. */
  ghost predicate AllAsked(job: Job, l: Loop)
    requires job.Valid()
  {
    l.outcome == Done ==>
      forall r | InRangeRequest(r, job.s, job.e, job.seg, job.mode) && r.0 < l.start :: r in l.requests
  }

  /** Segments still to serve; a request that ends before it starts is tried once. */
  ghost function Budget(job: Job, start: int): nat
    requires job.Valid()
  {
    if job.s <= job.e then CellsLeft(start, job.e, job.seg) else if start <= job.s then 1 else 0
  }

  lemma IterateKeepsCursor(job: Job, l: Loop)
    requires job.Valid() && Running(l) && Cursor(job, l)
    ensures Cursor(job, Iterate(job, l))
  {
  }

  lemma {:induction false} IterateKeepsBytes(job: Job, l: Loop)
    requires job.Valid() && Running(l) && Cursor(job, l) && Bytes(job, l)
    ensures Bytes(job, Iterate(job, l))
  {
    hide OnGrid, Chunk, Taken;
    var end, k := ClampedEnd(job, l.end), |l.requests|;
    var data := job.fetch(k, l.start, end);
    if data.Some? {
      assert data.value == Slice(job.file, l.start, end);
      SegmentServed(job.file, job.s, job.e, job.seg, l.start, end);
      var chunk := Chunk(data.value, l.start, end, job.s, job.e);
      if chunk.Some? {
        TakenStaysPrefix(l.written, chunk.value, job.writer(k), Slice(job.file, job.s, job.e));
      }
    }
  }

  lemma IterateKeepsRetries(job: Job, l: Loop, first: int)
    requires job.Valid() && Running(l) && Cursor(job, l) && Retries(job, l, first)
    ensures Retries(job, Iterate(job, l), first)
  {
    hide OnGrid, Chunk, Taken, Misses;
    MissesOfNext(job.fetch, l.requests, (l.start, ClampedEnd(job, l.end)));
  }

  lemma IterateKeepsRange(job: Job, l: Loop)
    requires job.Valid() && Running(l) && Cursor(job, l) && AllInRange(job, l)
    ensures AllInRange(job, Iterate(job, l))
  {
    var r := (l.start, ClampedEnd(job, l.end));
    assert InRangeRequest(r, job.s, job.e, job.seg, job.mode);
    assert Iterate(job, l).requests == l.requests + [r];
  }

  lemma {:induction false} GridGap(a: int, b: int, seg: int)
    requires seg > 0 && OnGrid(a, seg) && OnGrid(b, seg) && 0 <= a < b
    ensures a + seg <= b
    decreases b
  {
    if a >= seg {
      GridGap(a - seg, b - seg, seg);
    }
  }

  lemma IterateKeepsAsked(job: Job, l: Loop)
    requires job.Valid() && Running(l) && Cursor(job, l) && AllAsked(job, l)
    ensures AllAsked(job, Iterate(job, l))
  {
    var next := Iterate(job, l);
    var asked := (l.start, ClampedEnd(job, l.end));
    assert next.requests == l.requests + [asked];
    forall r | InRangeRequest(r, job.s, job.e, job.seg, job.mode) && r.0 < next.start ensures r in next.requests {
      if r.0 > l.start {
        GridGap(l.start, r.0, job.seg);
      }
      assert r.0 == l.start ==> r == asked;
    }
  }

  lemma NothingBefore(job: Job)
    requires job.Valid() && Cursor(job, FirstLoop(job))
    ensures AllAsked(job, FirstLoop(job))
  {
    var start := FirstLoop(job).start;
    forall r | InRangeRequest(r, job.s, job.e, job.seg, job.mode) ensures r.0 >= start {
      if r.0 < start {
        GridGap(r.0, start, job.seg);
      }
    }
  }

  lemma MissesOfNext(fetch: (nat, int, int) -> Option<seq<Byte>>, requests: seq<(int, int)>, r: (int, int))
    ensures Misses(fetch, requests + [r]) ==
            Misses(fetch, requests) + if fetch(|requests|, r.0, r.1).None? then 1 else 0
  {
    assert (requests + [r])[..|requests|] == requests;
  }

  ghost predicate LoopInv(job: Job, l: Loop, first: int) {
    job.Valid() && Cursor(job, l) && Bytes(job, l) && Retries(job, l, first) && AllInRange(job, l) && AllAsked(job, l)
  }

  function FirstLoop(job: Job): Loop
    requires job.seg > 0
  {
    var start := job.s - job.s % job.seg;
    Loop(start, start + job.seg - 1, 3, true, [], [], Done)
  }

  lemma {:induction false} LoopStarts(job: Job)
    requires job.Valid()
    ensures LoopInv(job, FirstLoop(job), FirstLoop(job).start)
    ensures Budget(job, FirstLoop(job).start) ==
            if job.s <= job.e then job.e / job.seg - job.s / job.seg + 1 else 1
  {
    var start := job.s - job.s % job.seg;
    FirstCell(job.s, job.seg);
    GridIsMultiples(start, job.seg);
    if job.s <= job.e {
      CellsCounted(start, job.e, job.seg);
    }
    NothingBefore(job);
  }

  /** The loop variables after `n` iterations. */
  function Iterated(job: Job, n: nat): Loop
    requires job.seg > 0
  {
    if n == 0 then FirstLoop(job) else Iterate(job, Iterated(job, n - 1))
  }

  ghost predicate RanFor(job: Job, n: nat)
    requires job.seg > 0
  {
    n == 0 || (RanFor(job, n - 1) && Running(Iterated(job, n - 1)))
  }

  lemma {:induction false} IteratedInv(job: Job, n: nat)
    requires job.Valid() && RanFor(job, n)
    ensures LoopInv(job, Iterated(job, n), FirstLoop(job).start)
  {
    if n == 0 {
      LoopStarts(job);
    } else {
      IteratedInv(job, n - 1);
      var l := Iterated(job, n - 1);
      IterateKeepsCursor(job, l);
      IterateKeepsBytes(job, l);
      IterateKeepsRetries(job, l, FirstLoop(job).start);
      IterateKeepsRange(job, l);
      IterateKeepsAsked(job, l);
    }
  }

  /** What serve_segments promises. */
  ghost predicate ServesRange(job: Job, written: seq<Byte>, requests: seq<(int, int)>, outcome: Outcome)
    requires job.Valid()
  {
    // nothing but a prefix of the requested bytes is ever written
    && written <= Slice(job.file, job.s, job.e)
    // all of them, unless retries or the client gave out
    && (outcome == Done ==> written == Slice(job.file, job.s, job.e))
    && (outcome == Panicked ==> job.e < job.s || |job.file| <= job.e)
    && (outcome == WriterClosed ==> requests != [] && job.writer(|requests| - 1).Some?)
    && Misses(job.fetch, requests) <= 3 && (outcome == GaveUp <==> Misses(job.fetch, requests) == 3)
    // each request asks for a grid cell of the range, the last possibly clamped; in the end for all
    && (forall r | r in requests :: InRangeRequest(r, job.s, job.e, job.seg, job.mode))
    && (outcome == Done && job.s <= job.e ==>
          forall r | InRangeRequest(r, job.s, job.e, job.seg, job.mode) :: r in requests)
    && |requests| <= (if job.s <= job.e then job.e / job.seg - job.s / job.seg + 1 else 1) + 2
  }

  lemma LoopEnds(job: Job, n: nat)
    requires job.Valid() && RanFor(job, n) && !Running(Iterated(job, n))
    ensures var l := Iterated(job, n); ServesRange(job, l.written, l.requests, l.outcome)
  {
    IteratedInv(job, n);
    LoopStarts(job);
  }

  /** The first segment begins before the range, and the file ends before the range does, within that segment
      as far as it is asked for, or before the range begins. */
  predicate PanicsAtFirst(job: Job)
    requires job.seg > 0
  {
    var start := job.s - job.s % job.seg;
    start < job.s && (|job.file| < job.s ||
      (ClampedEnd(job, start + job.seg - 1) > job.e && (job.e + 1 < job.s || |job.file| <= job.e)))
  }

  lemma {:induction false} FirstOnGrid(start: int, s: int, seg: int)
    requires seg > 0 && 0 <= start && OnGrid(start, seg) && start <= s < start + seg
    ensures start == s - s % seg
  {
    GridIsMultiples(start, seg);
    SameQuotient(start, s, seg);
    assert start == (start / seg) * seg;
  }

  lemma {:induction false} IteratePanics(job: Job, l: Loop)
    requires job.Valid() && Running(l) && Cursor(job, l)
    requires |job.file| < 0x8000_0000_0000_0000 && job.s < 0x8000_0000_0000_0000 && job.e < 0x8000_0000_0000_0000
    ensures Iterate(job, l).outcome == Panicked <==>
            && job.fetch(|l.requests|, l.start, ClampedEnd(job, l.end)).Some?
            && l.start < job.s && PanicsAtFirst(job)
  {
    var end := ClampedEnd(job, l.end);
    assert end == l.start + job.seg - 1 || (job.mode == Mp4 && end == job.e < l.start + job.seg - 1);
    if l.start <= job.s {
      FirstOnGrid(l.start, job.s, job.seg);
    }
    if job.fetch(|l.requests|, l.start, end).Some? && l.start <= end && job.s <= end + 1 {
      ChunkPanicsExactly(job.file, l.start, end, job.s, job.e);
    }
  }

  lemma StartsBefore(job: Job)
    requires job.seg > 0 && PanicsAtFirst(job)
    ensures job.s - job.s % job.seg < job.s
  {
  }

  /** A request without an answer, or with one that cannot be cut, leaves cursor and bytes as they are. */
  lemma IterateWithoutChunk(job: Job, l: Loop)
    requires job.Valid() && Running(l)
    ensures var r := Iterate(job, l);
            && (job.fetch(|l.requests|, l.start, ClampedEnd(job, l.end)).None? ==>
                  r.start == l.start && r.written == l.written && (Running(r) || r.outcome == GaveUp)
                  && r.outcome != Panicked)
            && (r.outcome == Panicked ==> r.written == l.written)
  {
    hide Chunk, Taken;
  }

  /** Up to now the loop has met no answer, or panicked, if it is to panic; otherwise it has not panicked. */
  ghost predicate PanicsOnTime(job: Job, l: Loop)
    requires job.seg > 0
  {
    if PanicsAtFirst(job) then
      && l.written == [] && (Running(l) || l.outcome == GaveUp || l.outcome == Panicked)
      && (Running(l) ==> l.start == job.s - job.s % job.seg)
    else l.outcome != Panicked
  }

  lemma {:induction false} IterateKeepsPanics(job: Job, l: Loop)
    requires job.Valid() && Running(l) && Cursor(job, l) && PanicsOnTime(job, l)
    requires |job.file| < 0x8000_0000_0000_0000 && job.s < 0x8000_0000_0000_0000 && job.e < 0x8000_0000_0000_0000
    ensures PanicsOnTime(job, Iterate(job, l))
  {
    IteratePanics(job, l);
    IterateWithoutChunk(job, l);
    if PanicsAtFirst(job) {
      StartsBefore(job);
    }
    hide PanicsAtFirst, Iterate, Cursor;
  }

  /** Serving panics exactly then, unless no request is answered: in Default mode, for an unaligned range that
      ends past the file within its first segment, and for one that begins past the file. */
  lemma {:induction false} ServingPanicsExactly(job: Job, n: nat)
    requires job.Valid() && RanFor(job, n)
    requires |job.file| < 0x8000_0000_0000_0000 && job.s < 0x8000_0000_0000_0000 && job.e < 0x8000_0000_0000_0000
    ensures PanicsOnTime(job, Iterated(job, n))
  {
    if n > 0 {
      hide PanicsOnTime, Iterate, Running;
      ServingPanicsExactly(job, n - 1);
      IteratedInv(job, n - 1);
      IterateKeepsPanics(job, Iterated(job, n - 1));
    }
  }

  /** serve_segments.  The file is served from the grid segment holding `s` until the segment
      start passes `e`; three requests without data end it. */
  method ServeSegments(job: Job) returns (written: seq<Byte>, requests: seq<(int, int)>, outcome: Outcome)
    requires job.Valid()
    ensures ServesRange(job, written, requests, outcome)
    // and when it panics, on files and ranges within 64 bits
    ensures |job.file| < 0x8000_0000_0000_0000 && job.s < 0x8000_0000_0000_0000 && job.e < 0x8000_0000_0000_0000 ==>
              if PanicsAtFirst(job) then written == [] && (outcome == Panicked || outcome == GaveUp)
              else outcome != Panicked
  {
    ghost var n;
    written, requests, outcome, n := ServeLoop(job);
    LoopEnds(job, n);
    if |job.file| < 0x8000_0000_0000_0000 && job.s < 0x8000_0000_0000_0000 && job.e < 0x8000_0000_0000_0000 {
      ServingPanicsExactly(job, n);
    }
  }

  lemma StartsAt(job: Job)
    requires job.seg > 0
    ensures Iterated(job, 0) == FirstLoop(job) && RanFor(job, 0)
  {
  }

  lemma GoesOn(job: Job, n: nat)
    requires job.seg > 0 && RanFor(job, n) && Running(Iterated(job, n))
    ensures Iterated(job, n + 1) == Iterate(job, Iterated(job, n)) && RanFor(job, n + 1)
  {
  }

  /** The loop itself, which takes the variables through Iterate. */
  method ServeLoop(job: Job)
    returns (written: seq<Byte>, requests: seq<(int, int)>, outcome: Outcome, ghost n: nat)
    requires job.seg > 0
    ensures RanFor(job, n) && !Running(Iterated(job, n))
    ensures var l := Iterated(job, n); l.written == written && l.requests == requests && l.outcome == outcome
  {
    hide Chunk, Taken, Iterated, RanFor;
    n := 0;
    StartsAt(job);
    written, requests, outcome := [], [], Done;
    var downloading := true;
    var start := job.s - job.s % job.seg;
    var end := start + job.seg - 1;
    var retry := 3;
    while downloading
      invariant Iterated(job, n) == Loop(start, end, retry, downloading, written, requests, outcome)
      invariant RanFor(job, n) && retry >= 0
      invariant downloading ==> Running(Iterated(job, n))
      decreases if downloading then 1 else 0, Max(0, job.e + 1 - start), retry
    {
      GoesOn(job, n);
      n := n + 1;
      if job.mode == Mp4 && end > job.e {
        end := job.e;
      }
      var k := |requests|;
      var data := job.fetch(k, start, end);
      requests := requests + [(start, end)];
      if data.None? {
        retry := retry - 1;
        if retry == 0 {
          outcome := GaveUp;
          break;
        }
        continue;
      }
      var chunk := Chunk(data.value, start, end, job.s, job.e);
      if chunk.None? {
        outcome := Panicked;
        break;
      }
      var closed := job.writer(k);
      written := written + Taken(chunk.value, closed);
      if closed.Some? {
        downloading, outcome := false, WriterClosed;
      }
      start := start + job.seg;
      end := start + job.seg - 1;
      if start > job.e {
        downloading := false;
      }
    }
  }
}
