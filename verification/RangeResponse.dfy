/** The length a streaming response announces, against the bytes it then writes. */
module RangeResponse {
  import opened Wrappers
  import opened RangeServing

  datatype RangeSpec = RangeSpec(start: int, end: Option<int>)

  /** What parse_range_header guarantees of every range it returns. */
  predicate ValidSpec(spec: RangeSpec) {
    spec.start >= 0 && (spec.end.Some? ==> spec.start <= spec.end.value)
  }

  function ClampedRangeEnd(spec: RangeSpec, fileTotal: int): int {
    if fileTotal <= 0 then Max(spec.start, 0)
    else
      var maxEnd := fileTotal - 1;
      var end := if spec.end.Some? then spec.end.value else maxEnd;
      Max(Min(end, maxEnd), Min(spec.start, maxEnd))
  }

  function StreamingContentLength(spec: RangeSpec, fileTotal: int): int {
    Max(ClampedRangeEnd(spec, fileTotal) - spec.start + 1, 0)
  }

  function BodyLengthFromSpec(spec: RangeSpec): Option<int> {
    if spec.end.Some? then Some(Max(spec.end.value - spec.start + 1, 0)) else None
  }

  function EffectiveSpec(spec: Option<RangeSpec>): RangeSpec {
    if spec.Some? then spec.value else RangeSpec(0, None)
  }

  predicate IsProbe(spec: Option<RangeSpec>) { spec == Some(RangeSpec(0, Some(1))) }

  predicate IsBounded(spec: Option<RangeSpec>) { spec.Some? && spec.value.end.Some? }

  /** The bytes a request asks of the file. */
  function Requested(file: seq<Byte>, spec: Option<RangeSpec>): seq<Byte>
    requires spec.Some? ==> ValidSpec(spec.value)
  {
    var s := EffectiveSpec(spec);
    Slice(file, s.start, if s.end.Some? then s.end.value else |file| - 1)
  }

  datatype Response =
    | BadGateway
    | HeadersFailed
    | Streamed(announced: int, body: seq<Byte>, outcome: Outcome)

  /** Every request for bytes the file has succeeds, and the client never closes. */
  ghost predicate Smooth(file: seq<Byte>, fetch: (nat, int, int) -> Option<seq<Byte>>, writer: nat -> Option<nat>) {
    && (forall k: nat, a: int, b: int | 0 <= a < |file| :: fetch(k, a, b).Some?)
    && (forall k: nat :: writer(k).None?)
  }

  /** fetch_range_bytes for the probe `bytes=0-1`: cached or downloaded data cut to two bytes. */
  function ProbeBody(data: Option<seq<Byte>>): seq<Byte> {
    if data.None? then [] else if |data.value| >= 2 then data.value[..2] else data.value
  }

  /** parse_streaming.  `probed` is the outcome of the content-length probe of the open-ended
      path, `headersWritten` whether the header block reached the client. */
  method ParseStreaming(file: seq<Byte>, spec: Option<RangeSpec>, probed: Option<int>, headersWritten: bool,
                        seg: int, mode: Mode,
                        fetch: (nat, int, int) -> Option<seq<Byte>>, writer: nat -> Option<nat>)
    returns (r: Response)
    requires spec.Some? ==> ValidSpec(spec.value)
    requires seg > 0 && Honest(file, fetch)
    requires probed.Some? && probed.value > 0 ==> probed.value == |file|
    // which answer: only an open-ended request needs the length, and nothing but the headers stands in between
    ensures var bounded, known := spec.Some? && spec.value.end.Some?, probed.Some? && probed.value > 0;
            && (r == BadGateway <==> !bounded && !known)
            && (r == HeadersFailed <==> (bounded || known) && !headersWritten)
    // the length announced, whatever becomes of the body
    ensures r.Streamed? ==>
              r.announced == if spec.Some? && spec.value.end.Some? then spec.value.end.value - spec.value.start + 1
                             else Max(|file| - if spec.Some? then spec.value.start else 0, 0)
    ensures r.Streamed? ==> r.body <= Requested(file, spec)
    // the probe `bytes=0-1` is answered from one request of its own
    ensures r.Streamed? && spec == Some(RangeSpec(0, Some(1))) && fetch(0, 0, 1).None? ==> r.body == []
    // a response that ran to its end inside the file has exactly the length it announced
    ensures r.Streamed? && r.outcome == Done && (spec.Some? && spec.value.end.Some? ==> spec.value.end.value < |file|)
            && (spec == Some(RangeSpec(0, Some(1))) ==> fetch(0, 0, 1).Some?) ==>
              r.body == Requested(file, spec) && |r.body| == r.announced
    // with nothing going wrong the announcement is kept exactly for ranges that end in the file
    ensures r.Streamed? && Smooth(file, fetch, writer) ==>
              (|r.body| == r.announced <==> (spec.Some? && spec.value.end.Some? ==> spec.value.end.value < |file|))
  {
    if IsProbe(spec) {
      if !headersWritten {
        return HeadersFailed;
      }
      var data := fetch(0, 0, 1);
      assert data.Some? ==> data.value == Slice(file, 0, 1);
      var body := Taken(ProbeBody(data), writer(0));
      return Streamed(2, body, if writer(0).Some? then WriterClosed else Done);
    }
    if IsBounded(spec) {
      var announced := BodyLengthFromSpec(spec.value).value;
      if !headersWritten {
        return HeadersFailed;
      }
      var job := Job(file, spec.value.start, spec.value.end.value, seg, mode, fetch, writer);
      var body, requests, outcome := ServeSegments(job);
      if Smooth(file, fetch, writer) && job.e < |file| {
        SmoothServingIsDone(job, body, requests, outcome);
      }
      return Streamed(announced, body, outcome);
    }
    if probed.None? || probed.value <= 0 {
      return BadGateway;
    }
    var effective := EffectiveSpec(spec);
    var end := ClampedRangeEnd(effective, probed.value);
    var announced := StreamingContentLength(effective, probed.value);
    if !headersWritten {
      return HeadersFailed;
    }
    var job := Job(file, effective.start, end, seg, mode, fetch, writer);
    var body, requests, outcome := ServeSegments(job);
    if Smooth(file, fetch, writer) && job.s <= job.e {
      SmoothServingIsDone(job, body, requests, outcome);
    }
    return Streamed(announced, body, outcome);
  }

  lemma {:induction false} AnsweredMeansNoMiss(fetch: (nat, int, int) -> Option<seq<Byte>>, requests: seq<(int, int)>)
    requires forall k | 0 <= k < |requests| :: fetch(k, requests[k].0, requests[k].1).Some?
    ensures Misses(fetch, requests) == 0
  {
    if requests != [] {
      AnsweredMeansNoMiss(fetch, requests[..|requests| - 1]);
    }
  }

  /** With every in-file request answered and the client reading, serving runs to its end. */
  lemma SmoothServingIsDone(job: Job, body: seq<Byte>, requests: seq<(int, int)>, outcome: Outcome)
    requires job.Valid() && ServesRange(job, body, requests, outcome)
    requires Smooth(job.file, job.fetch, job.writer) && job.s <= job.e < |job.file|
    ensures outcome == Done
  {
    forall k | 0 <= k < |requests| ensures job.fetch(k, requests[k].0, requests[k].1).Some? {
      assert requests[k] in requests;
    }
    AnsweredMeansNoMiss(job.fetch, requests);
  }

  /** A bounded range that ends past the file is always answered short of what was announced. */
  lemma PastEndIsShort(job: Job, body: seq<Byte>, requests: seq<(int, int)>, outcome: Outcome)
    requires job.Valid() && ServesRange(job, body, requests, outcome)
    requires job.s <= job.e && |job.file| <= job.e
    ensures BodyLengthFromSpec(RangeSpec(job.s, Some(job.e))).Some?
    ensures |body| < BodyLengthFromSpec(RangeSpec(job.s, Some(job.e))).value
  {
    var whole := Slice(job.file, job.s, job.e);
    assert |body| <= |whole|;
  }

  /** The clamped length announced for a range of a file of known length is what the file has of it. */
  lemma {:induction false} AnnouncedIsHeld(file: seq<Byte>, spec: RangeSpec)
    requires ValidSpec(spec) && file != []
    ensures StreamingContentLength(spec, |file|) == |Requested(file, Some(spec))|
    ensures spec.start < |file| ==>
              Requested(file, Some(spec)) == Slice(file, spec.start, ClampedRangeEnd(spec, |file|))
  {
  }

  /** Without a known length it would be one byte. */
  lemma UnknownTotalIsOneByte(spec: RangeSpec, total: int)
    requires ValidSpec(spec) && total <= 0
    ensures StreamingContentLength(spec, total) == 1
  {
  }

  // ---------------------------------------------------------------------------------------
  // Buffered responses

  /** build_buffer_response: the body it cuts out, with the clamped bounds it reports. */
  function BufferSlice(data: seq<Byte>, spec: RangeSpec): (r: (int, int, seq<Byte>))
    requires data != []
    // never empty, always what the reported bounds say, and the request itself when it fits
    ensures 0 <= r.0 <= r.1 < |data| && r.2 == data[r.0..r.1 + 1]
    ensures ValidSpec(spec) && spec.start < |data| ==>
              r.2 == Slice(data, spec.start, if spec.end.Some? then spec.end.value else |data| - 1)
  {
    var maxIndex := |data| - 1;
    var start := Max(0, Min(spec.start, maxIndex));
    var end := Max(start, Min(if spec.end.Some? then spec.end.value else maxIndex, maxIndex));
    (start, end, data[start..end + 1])
  }
}
