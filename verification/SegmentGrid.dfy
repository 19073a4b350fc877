/** The grid of segments that precache fills, serving asks for and removal purges. */
module SegmentGrid {
  import opened RangeServing

  /** Number of segments of a file, as precache and removal both compute it. */
  function TotalSegments(length: int, seg: int): int
    requires seg > 0
  {
    length / seg + if length % seg > 0 then 1 else 0
  }

  function Cell(k: int, seg: int): (int, int) { (seg * k, seg * k + seg - 1) }

  /** cache_segments after the clamp to a known length. */
  function ClampedSegments(cacheSegments: nat, contentLength: int, seg: int): nat
    requires seg > 0
  {
    if contentLength > 0 && cacheSegments > TotalSegments(contentLength, seg)
    then TotalSegments(contentLength, seg) else cacheSegments
  }

  /** The file is cut into as many cells as it takes; of those, as many are cached as were asked for. */
  lemma {:induction false} ClampedSegmentsAre(wanted: nat, length: int, seg: int)
    requires seg > 0
    ensures length > 0 ==> (TotalSegments(length, seg) - 1) * seg < length <= TotalSegments(length, seg) * seg
    ensures var n := ClampedSegments(wanted, length, seg);
            if length <= 0 || wanted * seg < length then n == wanted
            else n <= wanted && (n - 1) * seg < length <= n * seg
  {
    var q, m := length / seg, length % seg;
    assert length == q * seg + m;
    var n := TotalSegments(length, seg);
    assert (n - 1) * seg == n * seg - seg;
    if length > 0 {
      var gap := n - wanted;
      assert n * seg == wanted * seg + gap * seg;
      assert gap >= 1 ==> gap * seg >= seg;
      assert gap <= 0 ==> gap * seg <= 0;
    }
  }

  lemma {:induction false} CellHolds(k: int, x: int, seg: int)
    requires seg > 0 && x >= 0
    ensures Cell(k, seg).0 <= x <= Cell(k, seg).1 <==> k == x / seg
  {
    var q := x / seg;
    assert x == q * seg + x % seg;
    var gap := k - q;
    assert seg * k == q * seg + gap * seg;
    assert gap >= 1 ==> gap * seg >= seg;
    assert gap <= -1 ==> gap * seg <= -seg;
  }

  /** A cell is one of the first TotalSegments exactly when it begins inside the file. */
  lemma {:induction false} CellBeginsInside(length: int, seg: int, k: int)
    requires seg > 0
    ensures k < TotalSegments(length, seg) <==> Cell(k, seg).0 < length
  {
    var n, m := length / seg, length % seg;
    var gap := n - k;
    assert length == k * seg + gap * seg + m;
    assert gap >= 1 ==> gap * seg >= seg;
    assert gap <= -1 ==> gap * seg <= -seg;
  }

  /** The first TotalSegments cells, cut to the file, partition it: every byte lies in exactly one
      cell, which is one of them, and none of them is empty. */
  lemma {:induction false} GridPartitionsFile(length: int, seg: int, x: int, k: int)
    requires seg > 0 && 0 <= x < length && 0 <= k
    ensures 0 <= x / seg < TotalSegments(length, seg)
    ensures Cell(k, seg).0 <= x <= Cell(k, seg).1 <==> k == x / seg
    ensures k < TotalSegments(length, seg) <==> Cell(k, seg).0 < length
  {
    hide TotalSegments;
    CellHolds(k, x, seg);
    CellHolds(x / seg, x, seg);
    CellBeginsInside(length, seg, k);
    CellBeginsInside(length, seg, x / seg);
    QuotientNonNegative(x, seg);
  }

  lemma QuotientNonNegative(x: int, seg: int)
    requires seg > 0 && x >= 0
    ensures x / seg >= 0
  {
  }

  /** Cells are what serving asks for, and adjacent cells meet without gap or overlap. */
  lemma CellsAreGridRanges(k: nat, seg: int)
    requires seg > 0
    ensures GridRange(Cell(k, seg), seg)
    ensures Cell(k + 1, seg).0 == Cell(k, seg).1 + 1
  {
    assert seg * k >= 0;
    QuotientUnique(seg * k, k, 0, seg);
    GridIsMultiples(seg * k, seg);
    assert seg * (k + 1) == seg * k + seg;
  }

  /** And serving asks for nothing else: a request begins where the cell of its first byte does, and is that
      cell unless MP4 mode clamps it to the end of the range. */
  lemma {:induction false} RequestsAreCells(r: (int, int), s: int, e: int, seg: int, mode: Mode)
    requires seg > 0 && 0 <= r.0
    ensures GridRange(r, seg) <==> r == Cell(r.0 / seg, seg)
    ensures var cell := Cell(r.0 / seg, seg);
            InRangeRequest(r, s, e, seg, mode) <==>
            && r.0 == cell.0 && s <= cell.1 && (s <= e ==> cell.0 <= e)
            && r.1 == if mode == Mp4 && cell.1 > e then e else cell.1
  {
    GridIsMultiples(r.0, seg);
    assert r.0 == seg * (r.0 / seg) + r.0 % seg;
  }

  /** segments_cached: are the wanted cells all resident? `resident` answers for one range. */
  method SegmentsCached(contentLength: int, cacheSegments: nat, seg: int, resident: (int, int) -> bool)
    returns (all: bool)
    requires seg > 0
    ensures all <==> forall k :: 0 <= k < ClampedSegments(cacheSegments, contentLength, seg) ==>
                       resident(Cell(k, seg).0, Cell(k, seg).1)
    // with a known length and enough segments asked for, the whole file is covered
    ensures all && contentLength > 0 && cacheSegments >= TotalSegments(contentLength, seg) ==>
              forall x :: 0 <= x < contentLength ==> resident(Cell(x / seg, seg).0, Cell(x / seg, seg).1)
  {
    var wanted := ClampedSegments(cacheSegments, contentLength, seg);
    var count := 0;
    while count < wanted
      invariant 0 <= count <= wanted
      invariant forall k :: 0 <= k < count ==> resident(Cell(k, seg).0, Cell(k, seg).1)
    {
      var start := seg * count;
      var end := start + seg - 1;
      if !resident(start, end) {
        assert !resident(Cell(count, seg).0, Cell(count, seg).1);
        return false;
      }
      count := count + 1;
    }
    forall x | contentLength > 0 && cacheSegments >= TotalSegments(contentLength, seg) && 0 <= x < contentLength
      ensures resident(Cell(x / seg, seg).0, Cell(x / seg, seg).1)
    {
      GridPartitionsFile(contentLength, seg, x, 0);
    }
    return true;
  }
}
