/** How a worker assembles a file over pauses, resumptions and failures: the task's byte counter,
    the `.tmp` file, the Range it asks for, and append or truncate. */
module Assembly {
  import opened Wrappers
  import opened PoolSpec
  import Decimal
  import RangeHeader
  import RangeResponse
  import RangeServing

  /** What the task asks of the origin, and whether the origin honours a Range header. */
  datatype Source = Source(origin: Bytes, start: nat, end: Option<nat>, ranged: bool)
  {
    function Last(): int { if end.Some? then end.value else |origin| - 1 }

    /** The bytes start..=end, as far as the origin has them. */
    function Wanted(): Bytes { RangeServing.Slice(origin, start, Last()) }

    /** With a Range header that is honoured, the bytes from `from` on, or 416 when there are none;
        without, all of the origin. */
    function Response(from: nat): Option<Bytes> {
      var body := RangeServing.Slice(origin, from, Last());
      if !ranged || (from == 0 && end.None?) then Some(origin)
      else if body == [] then None
      else Some(body)
    }
  }

  /** The fields and files a worker updates. */
  datatype Work = Work(info: TaskInfo, cached: nat, downloaded: nat, total: nat,
                       tmp: Option<Bytes>, saved: Option<Bytes>)

  /** Why the chunk loop stopped before a chunk was written, or while it was. */
  datatype Stop =
    | PauseSeen                      // the status is Paused, or the token is cancelled
    | CancelSeen                     // the status is Cancelled
    | TokenAfterCancel               // the token is cancelled after the status became Cancelled
    | StreamBroke
    | WriteBroke(partial: nat)

  datatype Ending = RenameFailed | ReadFailed | Moved

  /** `sized`: the response says how long it is. */
  datatype Attempt =
    | NotListed                      // the task is no longer in the pool
    | CancelledBeforeResponse
    | SendFailed                     // no response, or an HTTP error status
    | OpenFailed(sized: bool)        // the .tmp file could not be opened
    | Streamed(sized: bool, chunks: seq<Bytes>, stop: Option<(nat, Stop)>, ending: Ending)

  function Flatten(chunks: seq<Bytes>): Bytes {
    if chunks == [] then [] else chunks[0] + Flatten(chunks[1..])
  }

  /** An empty counter takes over what an earlier run left in the .tmp file. */
  function Adopted(w: Work): Work {
    if w.cached == 0 && w.tmp.Some? then w.(cached := |w.tmp.value|) else w
  }

  function Content(tmp: Option<Bytes>): Bytes { if tmp.Some? then tmp.value else [] }

  /** The file as opened: append when resuming, truncate otherwise. */
  function Opened(w: Work): Bytes { if w.cached > 0 then Content(w.tmp) else [] }

  /** The chunks are the response, none of them empty, and a stop falls on one of them. */
  ghost predicate Fits(src: Source, w: Work, a: Attempt) {
    a.Streamed? ==>
      var body := src.Response(src.start + Adopted(w).cached);
      body.Some? ==>
        && Flatten(a.chunks) == body.value
        && (forall i | 0 <= i < |a.chunks| :: a.chunks[i] != [])
        && (a.stop.Some? ==> a.stop.value.0 < |a.chunks|)
        && (a.stop.Some? && a.stop.value.1.WriteBroke? ==>
              a.stop.value.1.partial <= |a.chunks[a.stop.value.0]|)
  }

  function GivenUp(w: Work): Work { w.(info := FailedAttempt(w.info)) }

  /** The file and the progress after the first `k` chunks are written. */
  function Written(w: Work, chunks: seq<Bytes>, k: nat): Work
    requires k <= |chunks|
  {
    var received := Flatten(chunks[..k]);
    w.(tmp := Some(Opened(w) + received), downloaded := if k == 0 then w.downloaded else w.cached + |received|)
  }

  /** The chunk loop stops at chunk `k`; only a pause or a cancel moves the counter. */
  function Stopped(w: Work, chunks: seq<Bytes>, k: nat, stop: Stop): Work
    requires k < |chunks|
  {
    var v := Written(w, chunks, k);
    var reached := w.cached + |Flatten(chunks[..k])|;
    match stop
    case PauseSeen => v.(cached := reached, downloaded := reached, info := w.info.(status := Paused))
    case CancelSeen => v.(tmp := None, cached := reached, downloaded := reached, info := w.info.(status := Cancelled))
    case TokenAfterCancel => v.(cached := reached, downloaded := reached, info := w.info.(status := Cancelled))
    case StreamBroke => GivenUp(v.(tmp := None))
    case WriteBroke(partial) =>
      GivenUp(v.(tmp := Some(v.tmp.value + if partial <= |chunks[k]| then chunks[k][..partial] else chunks[k])))
  }

  /** finish_pool_download: the old file goes, the .tmp file takes its place. */
  function Finished(w: Work, ending: Ending): Work {
    if ending == RenameFailed then GivenUp(w.(saved := None))
    else
      var moved := w.(saved := w.tmp, tmp := None);
      if ending == ReadFailed || Content(w.tmp) == [] then GivenUp(moved) else moved.(info := w.info.(status := Completed))
  }

  /** run_pool_download. */
  function AfterAttempt(src: Source, w: Work, a: Attempt): Work {
    var b := Adopted(w);
    if a.NotListed? then w
    else if a.CancelledBeforeResponse? then
      if b.info.status == Cancelled then b else b.(info := b.info.(status := Paused))
    else if a.SendFailed? then GivenUp(b.(tmp := None))
    else
      var body := src.Response(src.start + b.cached);
      if body.None? then GivenUp(b.(cached := 0, info := b.info.(retryTimes := 0), tmp := None))
      else
        var c := if a.sized && body.value != [] then b.(total := b.cached + |body.value|) else b;
        if a.OpenFailed? then GivenUp(c)
        else if a.stop.Some? && a.stop.value.0 < |a.chunks| then
          Stopped(c, a.chunks, a.stop.value.0, a.stop.value.1)
        else Finished(Written(c, a.chunks, |a.chunks|), a.ending)
  }

  // ---------------------------------------------------------------------------------------
  // Alignment

  /** The .tmp file is a prefix of the wanted bytes, and a non-zero counter is its length. */
  ghost predicate Aligned(src: Source, w: Work) {
    && Content(w.tmp) <= src.Wanted()
    && (w.cached > 0 ==> w.tmp.Some? && w.cached == |w.tmp.value|)
  }

  /** The chunk loop of the attempt is reached, and how it stops, if it does. */
  predicate Streams(src: Source, w: Work, a: Attempt) {
    a.Streamed? && src.Response(src.start + Adopted(w).cached).Some?
  }

  predicate StopsEarly(a: Attempt)
    requires a.Streamed?
  {
    a.stop.Some? && a.stop.value.0 < |a.chunks|
  }

  /** The attempt completes: it receives the whole response and moves a file with some bytes into place. */
  predicate Completes(src: Source, w: Work, a: Attempt) {
    && Streams(src, w, a) && !StopsEarly(a) && a.ending == Moved
    && Opened(Adopted(w)) + src.Response(src.start + Adopted(w).cached).value != []
  }

  /** The attempt takes the task out of the pool: it completes, or sees a cancel. */
  predicate Ends(src: Source, w: Work, a: Attempt) {
    Completes(src, w, a) || (Streams(src, w, a) && StopsEarly(a) && a.stop.value.1 == CancelSeen)
  }

  /** The attempt started from nothing, or it does not fail after the request went out. */
  predicate Harmless(src: Source, w: Work, a: Attempt) {
    || Adopted(w).cached == 0
    || a.NotListed?
    || a.CancelledBeforeResponse?
    || (!a.SendFailed? && src.Response(src.start + Adopted(w).cached).None?)
    || a.OpenFailed?
    || (Streams(src, w, a) && StopsEarly(a) &&
        (a.stop.value.1 == PauseSeen || a.stop.value.1 == TokenAfterCancel || a.stop.value == (0, WriteBroke(0))))
  }

  /** The response is what the header sent asks for, as the proxy's own parser reads it: everything when there
      is none, the range when it names one, and 416 when the origin has none of it or it ends before it
      begins. */
  lemma {:induction false} ResponseAnswersHeader(src: Source, cached: nat)
    requires src.ranged && Decimal.InI64(src.start + cached) && (src.end.Some? ==> Decimal.InI64(src.end.value))
    ensures var text := RangeHeader.RangeText(src.start, cached, src.end);
            var spec := RangeHeader.ParseRangeHeader(text);
            src.Response(src.start + cached) ==
            if text == "" then Some(src.origin)
            else if spec.None? || RangeResponse.Requested(src.origin, spec) == [] then None
            else Some(RangeResponse.Requested(src.origin, spec))
  {
    var text := RangeHeader.RangeText(src.start, cached, src.end);
    if src.start + cached > 0 || src.end.Some? {
      RangeHeader.RangeTextParses(src.start, cached, src.end);
    }
    assert text == "" <==> src.start + cached == 0 && src.end.None?;
    hide RangeHeader.RangeText, RangeHeader.ParseRangeHeader;
  }

  lemma AdoptedFacts(src: Source, w: Work)
    requires Aligned(src, w)
    ensures var b := Adopted(w);
            Aligned(src, b) && b.cached == |Content(b.tmp)| && Opened(b) == Content(b.tmp)
  {
  }

  /** The response to a resumption continues the wanted bytes where the .tmp file ends. */
  lemma ResponseContinues(src: Source, have: Bytes)
    requires src.ranged && have <= src.Wanted()
    ensures var body := src.Response(src.start + |have|);
            && (have != [] && body.Some? ==> body.value != [])
            && (body.Some? ==> have + body.value == src.Wanted())
  {
  }

  lemma {:induction false} FlattenPrefix(chunks: seq<Bytes>, k: nat)
    requires k <= |chunks|
    ensures Flatten(chunks[..k]) <= Flatten(chunks)
    ensures k < |chunks| ==> Flatten(chunks[..k]) + chunks[k] <= Flatten(chunks)
  {
    if k == 0 {
      assert chunks[..0] == [];
    } else {
      FlattenPrefix(chunks[1..], k - 1);
      assert chunks[..k][1..] == chunks[1..][..k - 1];
      assert Flatten(chunks[..k]) == chunks[0] + Flatten(chunks[1..][..k - 1]);
      if k < |chunks| {
        assert chunks[1..][k - 1] == chunks[k];
        assert chunks[0] + (Flatten(chunks[1..][..k - 1]) + chunks[k]) == Flatten(chunks[..k]) + chunks[k];
      }
    }
  }

  lemma {:induction false} FlattenGrows(chunks: seq<Bytes>, k: nat)
    requires k < |chunks| && forall i | 0 <= i < |chunks| :: chunks[i] != []
    ensures Flatten(chunks[..k]) == [] <==> k == 0
  {
    if k == 0 {
      assert chunks[..0] == [];
    } else {
      assert chunks[..k][0] == chunks[0];
    }
  }

  /** A stop in the chunk loop leaves a prefix behind, but only a pause counts it. */
  lemma StoppedKeepsAligned(src: Source, b: Work, chunks: seq<Bytes>, k: nat, why: Stop)
    requires Aligned(src, b) && b.cached == |Content(b.tmp)| && Opened(b) == Content(b.tmp)
    requires k < |chunks| && Content(b.tmp) + Flatten(chunks) == src.Wanted()
    requires forall i | 0 <= i < |chunks| :: chunks[i] != []
    requires why.WriteBroke? ==> why.partial <= |chunks[k]|
    requires why != CancelSeen
    ensures Aligned(src, Stopped(b, chunks, k, why)) <==>
            b.cached == 0 || why == PauseSeen || why == TokenAfterCancel || (why == WriteBroke(0) && k == 0)
  {
    var have, got := Content(b.tmp), Flatten(chunks[..k]);
    FlattenPrefix(chunks, k);
    FlattenGrows(chunks, k);
    JoinPrefix(have, got, Flatten(chunks));
    if why.WriteBroke? {
      var part := chunks[k][..why.partial];
      assert chunks[k] == part + chunks[k][why.partial..];
      assert (got + part) + chunks[k][why.partial..] == got + chunks[k];
      JoinPrefix(have, got + part, Flatten(chunks));
      assert have + got + part == have + (got + part);
    }
  }

  lemma JoinPrefix(a: Bytes, b: Bytes, c: Bytes)
    requires b <= c
    ensures a + b <= a + c
  {
    assert a + c == (a + b) + c[|b|..];
  }

  /** A body whose file cannot be moved or read back leaves the counter wrong. */
  lemma UnfinishedKeepsAligned(src: Source, b: Work, chunks: seq<Bytes>, ending: Ending)
    requires Aligned(src, b) && b.cached == |Content(b.tmp)| && Opened(b) == Content(b.tmp)
    requires Content(b.tmp) + Flatten(chunks) == src.Wanted() && (b.cached > 0 ==> Flatten(chunks) != [])
    requires ending == Moved ==> src.Wanted() == []
    ensures Aligned(src, Finished(Written(b, chunks, |chunks|), ending)) <==> b.cached == 0
  {
    assert chunks[..|chunks|] == chunks;
  }

  /** From an origin that honours Range, an attempt that leaves the task in the pool keeps the .tmp file
      and the counter aligned exactly when it is harmless. */
  lemma {:induction false} AttemptKeepsAlignedExactly(src: Source, w: Work, a: Attempt)
    requires src.ranged && Aligned(src, w) && Fits(src, w, a) && !Ends(src, w, a)
    ensures Aligned(src, AfterAttempt(src, w, a)) <==> Harmless(src, w, a)
  {
    hide Stopped, Finished, Written, Flatten, FailedAttempt, Source.Response, Source.Wanted;
    AdoptedFacts(src, w);
    var b := Adopted(w);
    ResponseContinues(src, Content(b.tmp));
    if Streams(src, w, a) {
      var body := src.Response(src.start + b.cached).value;
      var c := if a.sized && body != [] then b.(total := b.cached + |body|) else b;
      if StopsEarly(a) {
        StoppedKeepsAligned(src, c, a.chunks, a.stop.value.0, a.stop.value.1);
      } else {
        UnfinishedKeepsAligned(src, c, a.chunks, a.ending);
      }
    }
  }

  /** What a completing attempt puts in place. */
  lemma {:induction false} CompletionSaves(src: Source, w: Work, a: Attempt)
    requires Fits(src, w, a) && Completes(src, w, a)
    ensures var b, r := Adopted(w), AfterAttempt(src, w, a);
            && r.saved == Some(Opened(b) + src.Response(src.start + b.cached).value) && r.tmp == None
            && r.info.status == Completed
            && (src.Response(src.start + b.cached).value != [] ==>
                  r.downloaded == b.cached + |src.Response(src.start + b.cached).value|)
  {
    assert a.chunks[..|a.chunks|] == a.chunks;
  }

  /** A completed attempt from an aligned state has assembled exactly the wanted bytes. */
  lemma {:induction false} CompletionIsWhole(src: Source, w: Work, a: Attempt)
    requires src.ranged && Aligned(src, w) && Fits(src, w, a) && Completes(src, w, a)
    ensures var r := AfterAttempt(src, w, a);
            r.saved == Some(src.Wanted()) && r.tmp == None && r.info.status == Completed
            && r.downloaded == |src.Wanted()|
  {
    hide AfterAttempt, Source.Response, Source.Wanted;
    AdoptedFacts(src, w);
    ResponseContinues(src, Content(Adopted(w).tmp));
    CompletionSaves(src, w, a);
  }

  /** Kept bytes and the response to a resumption after `cached` are the wanted bytes exactly when the
      kept ones are the first `cached` of them. */
  lemma AssembledExactly(src: Source, have: Bytes, cached: nat)
    requires src.ranged && src.Response(src.start + cached).Some?
    requires cached == 0 ==> have == []
    ensures have + src.Response(src.start + cached).value == src.Wanted() <==>
            |have| == cached && have <= src.Wanted()
  {
    var body, wanted := src.Response(src.start + cached).value, src.Wanted();
    if cached == 0 {
      assert have + body == body;
    } else {
      assert body == wanted[cached..];
      assert |have + body| == |have| + |body|;
      assert have + body == wanted ==> have == (have + body)[..|have|];
      assert |have| == cached && have <= wanted ==> wanted == wanted[..cached] + wanted[cached..];
    }
  }

  /** Whatever the state: what a completing attempt saves is what was wanted exactly when the state was
      aligned.  From an origin that ignores Range, exactly when nothing was resumed and all of it was
      wanted. */
  lemma {:induction false} CompletionIsWholeExactly(src: Source, w: Work, a: Attempt)
    requires Fits(src, w, a) && Completes(src, w, a)
    ensures AfterAttempt(src, w, a).saved == Some(src.Wanted()) <==>
            if src.ranged then Aligned(src, w) else Opened(Adopted(w)) == [] && src.Wanted() == src.origin
  {
    hide AfterAttempt, Fits;
    CompletionSaves(src, w, a);
    var b := Adopted(w);
    var have := Opened(b);
    if src.ranged {
      AssembledExactly(src, have, b.cached);
    } else if have + src.origin == src.Wanted() {
      assert |have + src.origin| == |have| + |src.origin|;
    } else if have == [] {
      assert have + src.origin == src.origin;
    }
  }

  // ---------------------------------------------------------------------------------------
  // What becomes of the task

  /** The attempt fails: it gets no response or no file, breaks off, or cannot put a file with some bytes in
      place. */
  predicate Fails(src: Source, w: Work, a: Attempt) {
    || a.SendFailed?
    || (a.OpenFailed? && src.Response(src.start + Adopted(w).cached).Some?)
    || (Streams(src, w, a) && StopsEarly(a) && (a.stop.value.1 == StreamBroke || a.stop.value.1.WriteBroke?))
    || (Streams(src, w, a) && !StopsEarly(a) && !Completes(src, w, a))
  }

  /** The origin has no bytes left to send. */
  predicate Unsatisfiable(src: Source, w: Work, a: Attempt) {
    (a.OpenFailed? || a.Streamed?) && src.Response(src.start + Adopted(w).cached).None?
  }

  /** How an attempt leaves the task: a failure uses up a retry or is final, running out of bytes is final,
      a completion completes, a pause pauses; and a cancelled task stays cancelled unless it completes or a
      pause is seen.  What the task is about, and its token, stay as they are. */
  lemma {:induction false} AttemptLeaves(src: Source, w: Work, a: Attempt)
    requires Fits(src, w, a)
    ensures var i, r := w.info, AfterAttempt(src, w, a).info;
            && r == i.(status := r.status, retryTimes := r.retryTimes)
            && (a.NotListed? ==> r == i)
            && (a.CancelledBeforeResponse? ==>
                  r == i.(status := if i.status == Cancelled then Cancelled else Paused))
            && (Fails(src, w, a) ==>
                  r == if i.status == Cancelled then i
                       else if i.retryTimes > 0 then i.(status := Idle, retryTimes := i.retryTimes - 1)
                       else i.(status := Failed))
            && (Unsatisfiable(src, w, a) ==>
                  r == i.(status := if i.status == Cancelled then Cancelled else Failed, retryTimes := 0))
            && (Completes(src, w, a) ==> r == i.(status := Completed))
            && (Streams(src, w, a) && StopsEarly(a) && a.stop.value.1 == PauseSeen ==> r == i.(status := Paused))
            && (Streams(src, w, a) && StopsEarly(a) && a.stop.value.1 == CancelSeen ==> r == i.(status := Cancelled))
            && (Streams(src, w, a) && StopsEarly(a) && a.stop.value.1 == TokenAfterCancel ==> r == i.(status := Cancelled))
  {
    hide Flatten, Source.Response, Source.Last, Adopted;
    AdoptedTask(w);
    if Streams(src, w, a) {
      if StopsEarly(a) {
        hide Fails, Completes, Finished;
      } else {
        assert a.chunks[..|a.chunks|] == a.chunks;
        hide Stopped;
      }
    } else {
      hide Written, Stopped, Finished;
    }
  }

  lemma AdoptedTask(w: Work)
    ensures Adopted(w).info == w.info && Adopted(w).saved == w.saved && Adopted(w).downloaded == w.downloaded
  {
  }

  /** What a failing attempt leaves on disk: no finished file is touched but by an attempt that received the
      whole response, whose old file goes first; and an attempt without a response leaves nothing behind. */
  lemma {:induction false} FilesLeft(src: Source, w: Work, a: Attempt)
    ensures var r := AfterAttempt(src, w, a);
            && (a.NotListed? || a.CancelledBeforeResponse? ==> r.tmp == w.tmp && r.saved == w.saved)
            && (a.SendFailed? || Unsatisfiable(src, w, a) ==> r.tmp == None && r.saved == w.saved)
            && (a.OpenFailed? && !Unsatisfiable(src, w, a) ==> r.tmp == w.tmp && r.saved == w.saved)
            && (Streams(src, w, a) && StopsEarly(a) ==> r.saved == w.saved)
            && (Streams(src, w, a) && !StopsEarly(a) ==>
                  if a.ending == RenameFailed then r.saved == None && r.tmp.Some? else r.saved.Some? && r.tmp == None)
  {
    hide Flatten, Source.Response;
  }

  /** The progress shown: a stop with a pause or a cancel, and every chunk written, bring it to the counter
      plus what was received. */
  lemma {:induction false} ProgressShown(src: Source, w: Work, a: Attempt)
    requires Streams(src, w, a)
    ensures var k := if StopsEarly(a) then a.stop.value.0 else |a.chunks|;
            var counted := StopsEarly(a) && !a.stop.value.1.StreamBroke? && !a.stop.value.1.WriteBroke?;
            AfterAttempt(src, w, a).downloaded ==
            if counted || k > 0 then Adopted(w).cached + |Flatten(a.chunks[..k])| else w.downloaded
  {
    assert a.chunks[..|a.chunks|] == a.chunks;
    hide Flatten, Source.Response, FailedAttempt;
  }

  // ---------------------------------------------------------------------------------------
  // Runs

  /** Between attempts users and the scheduler rewrite status, retries and token only. */
  datatype Event = Try(a: Attempt) | Touch(info: TaskInfo)

  function After(src: Source, w: Work, e: Event): Work {
    match e
    case Try(a) => AfterAttempt(src, w, a)
    case Touch(info) => w.(info := info)
  }

  /** One worker, attempt after attempt, none of them ending the task, all of them harmless. */
  ghost predicate SafeRun(src: Source, w: Work, run: seq<Event>)
    decreases |run|
  {
    run == [] ||
    ((run[0].Try? ==> Fits(src, w, run[0].a) && !Ends(src, w, run[0].a) && Harmless(src, w, run[0].a))
     && SafeRun(src, After(src, w, run[0]), run[1..]))
  }

  function AfterRun(src: Source, w: Work, run: seq<Event>): Work
    decreases |run|
  {
    if run == [] then w else AfterRun(src, After(src, w, run[0]), run[1..])
  }

  lemma {:induction false} RunStaysAligned(src: Source, w: Work, run: seq<Event>)
    requires src.ranged && Aligned(src, w) && SafeRun(src, w, run)
    ensures Aligned(src, AfterRun(src, w, run))
    decreases |run|
  {
    hide AfterAttempt, Harmless, Fits, Ends;
    if run != [] {
      if run[0].Try? {
        AttemptKeepsAlignedExactly(src, w, run[0].a);
      }
      RunStaysAligned(src, After(src, w, run[0]), run[1..]);
    }
  }

  /** The origin answers the event with a positive length. */
  predicate Announces(src: Source, w: Work, e: Event) {
    && e.Try? && (e.a.OpenFailed? || e.a.Streamed?) && e.a.sized
    && var body := src.Response(src.start + Adopted(w).cached); body.Some? && body.value != []
  }

  /** However an attempt goes, and whatever the counter says, the total it announces is the length of
      the wanted bytes. */
  lemma TotalIsWanted(src: Source, w: Work, e: Event)
    requires src.ranged
    ensures After(src, w, e).total == if Announces(src, w, e) then |src.Wanted()| else w.total
  {
    hide Flatten;
  }

  /** So over any run, harmful failures included, the announced total never changes. */
  lemma {:induction false} TotalIsStable(src: Source, w: Work, run: seq<Event>)
    requires src.ranged
    ensures var v := AfterRun(src, w, run); v.total == w.total || v.total == |src.Wanted()|
    ensures w.total == |src.Wanted()| || (run != [] && Announces(src, w, run[0])) ==>
              AfterRun(src, w, run).total == |src.Wanted()|
    decreases |run|
  {
    hide After, Source.Wanted, Announces;
    if run != [] {
      TotalIsWanted(src, w, run[0]);
      TotalIsStable(src, After(src, w, run[0]), run[1..]);
    }
  }

  /** And after a run without harmful failures it is the length of what a completing attempt saves. */
  lemma TotalIsSavedLength(src: Source, w: Work, run: seq<Event>, last: Attempt)
    requires src.ranged && w.cached == 0 && w.tmp == None && SafeRun(src, w, run)
    requires var v := AfterRun(src, w, run); Fits(src, v, last) && Completes(src, v, last) && last.sized
    ensures var r := AfterAttempt(src, AfterRun(src, w, run), last);
            r.saved.Some? && r.total == |r.saved.value|
  {
    hide AfterAttempt, Harmless, Fits, Ends, Source.Wanted;
    EveryCompletionIsWhole(src, w, run, last);
    TotalIsWanted(src, AfterRun(src, w, run), Try(last));
  }

  /** After any number of pauses, resumptions and harmless failures, the attempt that completes
      saves exactly origin[start..=end]. */
  lemma EveryCompletionIsWhole(src: Source, w: Work, run: seq<Event>, last: Attempt)
    requires src.ranged && w.cached == 0 && w.tmp == None && SafeRun(src, w, run)
    requires var v := AfterRun(src, w, run); Fits(src, v, last) && Completes(src, v, last)
    ensures AfterAttempt(src, AfterRun(src, w, run), last).saved == Some(src.Wanted())
  {
    hide AfterAttempt, Harmless, Fits, Ends, Streams;
    RunStaysAligned(src, w, run);
    CompletionIsWhole(src, AfterRun(src, w, run), last);
  }

  /** Harm is done for good: after any such run and one more attempt that leaves the task in the pool,
      whatever rewrites the fields in between, the next completing attempt saves what was wanted exactly
      when that attempt was harmless. */
  lemma {:induction false} HarmIsExact(src: Source, w: Work, run: seq<Event>, a: Attempt, info: TaskInfo, last: Attempt)
    requires src.ranged && w.cached == 0 && w.tmp == None && SafeRun(src, w, run)
    requires var v := AfterRun(src, w, run); Fits(src, v, a) && !Ends(src, v, a)
    requires var u := AfterAttempt(src, AfterRun(src, w, run), a).(info := info);
             Fits(src, u, last) && Completes(src, u, last)
    ensures var v := AfterRun(src, w, run);
            var u := AfterAttempt(src, v, a).(info := info);
            AfterAttempt(src, u, last).saved == Some(src.Wanted()) <==> Harmless(src, v, a)
  {
    hide AfterAttempt, Harmless, Fits, Ends, Completes, SafeRun, AfterRun;
    var v := AfterRun(src, w, run);
    RunStaysAligned(src, w, run);
    AttemptKeepsAlignedExactly(src, v, a);
    CompletionIsWholeExactly(src, AfterAttempt(src, v, a).(info := info), last);
  }

  /** An origin that ignores Range: a resumption appends the whole file to what is there. */
  lemma {:induction false} IgnoredRangeRepeatsBytes() returns (src: Source, w: Work, last: Attempt)
    ensures !src.ranged && Aligned(src, w) && Fits(src, w, last) && Completes(src, w, last)
    ensures src.Wanted() == [1, 2, 3] && AfterAttempt(src, w, last).saved == Some([1, 1, 2, 3])
  {
    hide AfterAttempt;
    src := Source([1, 2, 3], 0, None, false);
    w := Work(TaskInfo("1", "e", 1, Downloading, 3, true), 1, 1, 3, Some([1]), None);
    last := Streamed(true, [[1, 2, 3]], None, Moved);
    assert src.Wanted() == [1, 2, 3];
    assert Flatten([[1, 2, 3]]) == [1, 2, 3] + Flatten([]);
    CompletionSaves(src, w, last);
    assert [1] + [1, 2, 3] == [1, 1, 2, 3];
  }

  /** A stream error while resuming deletes the file but keeps the counter: the next attempt
      completes with the first byte missing. */
  lemma BrokenResumeLosesBytes() returns (src: Source, w: Work, broken: Attempt, last: Attempt)
    ensures src.ranged && Aligned(src, w) && Fits(src, w, broken) && !Harmless(src, w, broken)
    ensures var v := AfterAttempt(src, w, broken);
            && Fits(src, v, last) && Completes(src, v, last)
            && AfterAttempt(src, v, last).info.status == Completed
            && AfterAttempt(src, v, last).saved == Some([2, 3]) && src.Wanted() == [1, 2, 3]
  {
    src := Source([1, 2, 3], 0, None, true);
    w := Work(TaskInfo("1", "e", 1, Downloading, 3, true), 1, 1, 3, Some([1]), None);
    broken := Streamed(true, [[2, 3]], Some((0, StreamBroke)), Moved);
    last := Streamed(true, [[2, 3]], None, Moved);
    assert src.Wanted() == [1, 2, 3];
    assert src.Response(1) == Some([2, 3]);
    assert Flatten([[2, 3]]) == [2, 3] + Flatten([]);
    assert broken.chunks[..0] == [] && last.chunks[..1] == last.chunks;
    var v := AfterAttempt(src, w, broken);
    assert v.cached == 1 && v.tmp == None;
    assert Opened(v) + [2, 3] == [2, 3];
  }

  // ---------------------------------------------------------------------------------------
  // The worker

  class PoolWorker {
    const src: Source
    var info: TaskInfo
    var cached: nat
    var downloaded: nat
    var total: nat
    var tmp: Option<Bytes>
    var saved: Option<Bytes>

    constructor (src: Source, info: TaskInfo)
      ensures this.src == src && State() == Work(info, 0, 0, 0, None, None)
    {
      this.src, this.info := src, info;
      cached, downloaded, total, tmp, saved := 0, 0, 0, None, None;
    }

    function State(): Work
      reads this
    {
      Work(info, cached, downloaded, total, tmp, saved)
    }

    /** run_pool_download under one course of events. */
    method RunPoolDownload(a: Attempt)
      modifies this
      ensures State() == AfterAttempt(src, old(State()), a)
    {
      hide Stopped, Finished, Written, Flatten, FailedAttempt, Source.Response;
      if a.NotListed? {
        return;
      }
      if cached == 0 && tmp.Some? {
        cached := |tmp.value|;
      }
      var append := cached > 0;
      if a.CancelledBeforeResponse? {
        if info.status != Cancelled {
          info := info.(status := Paused);
        }
        return;
      }
      if a.SendFailed? {
        tmp := None;
        info := FailedAttempt(info);
        return;
      }
      var body := src.Response(src.start + cached);
      if body.None? {
        cached := 0;
        info := FailedAttempt(info.(retryTimes := 0));
        tmp := None;
        return;
      }
      if a.sized && body.value != [] {
        total := cached + |body.value|;
      }
      if a.OpenFailed? {
        info := FailedAttempt(info);
        return;
      }
      ReceiveChunks(if append then Content(tmp) else [], a.chunks, a.stop, a.ending);
    }

    /** The chunk loop over the opened file, and what follows it. */
    method ReceiveChunks(file: Bytes, chunks: seq<Bytes>, stop: Option<(nat, Stop)>, ending: Ending)
      requires file == Opened(State())
      modifies this
      ensures State() ==
              if stop.Some? && stop.value.0 < |chunks|
              then Stopped(old(State()), chunks, stop.value.0, stop.value.1)
              else Finished(Written(old(State()), chunks, |chunks|), ending)
    {
      ghost var w := State();
      tmp := Some(file);
      var received, k := 0, 0;
      assert chunks[..0] == [] && file + [] == file;
      while k < |chunks|
        invariant 0 <= k <= |chunks| && (stop.Some? && stop.value.0 < |chunks| ==> k <= stop.value.0)
        invariant received == |Flatten(chunks[..k])| && State() == Written(w, chunks, k)
      {
        if stop.Some? && stop.value.0 == k {
          StopAt(chunks[k], received, stop.value.1);
          return;
        }
        FlattenNext(chunks, k);
        assert file + Flatten(chunks[..k + 1]) == file + Flatten(chunks[..k]) + chunks[k];
        tmp := Some(tmp.value + chunks[k]);
        received := received + |chunks[k]|;
        downloaded := cached + received;
        k := k + 1;
      }
      Finish(ending);
    }

    /** Leave the chunk loop with `received` bytes written since the attempt began. */
    method StopAt(chunk: Bytes, received: nat, why: Stop)
      requires tmp.Some?
      modifies this
      ensures State() ==
              match why
              case PauseSeen => old(State()).(cached := old(cached) + received, downloaded := old(cached) + received,
                                              info := old(info).(status := Paused))
              case CancelSeen => old(State()).(tmp := None, cached := old(cached) + received,
                                               downloaded := old(cached) + received,
                                               info := old(info).(status := Cancelled))
              case TokenAfterCancel => old(State()).(cached := old(cached) + received,
                                                     downloaded := old(cached) + received,
                                                     info := old(info).(status := Cancelled))
              case StreamBroke => GivenUp(old(State()).(tmp := None))
              case WriteBroke(partial) =>
                GivenUp(old(State()).(tmp := Some(old(tmp).value + if partial <= |chunk| then chunk[..partial] else chunk)))
    {
      match why {
        case PauseSeen =>
          cached := cached + received;
          downloaded := cached;
          info := info.(status := Paused);
        case CancelSeen =>
          cached := cached + received;
          downloaded := cached;
          tmp := None;
          info := info.(status := Cancelled);
        case TokenAfterCancel =>
          cached := cached + received;
          downloaded := cached;
          info := info.(status := Cancelled);
        case StreamBroke =>
          tmp := None;
          info := FailedAttempt(info);
        case WriteBroke(partial) =>
          tmp := Some(tmp.value + if partial <= |chunk| then chunk[..partial] else chunk);
          info := FailedAttempt(info);
      }
    }

    /** finish_pool_download on the files. */
    method Finish(ending: Ending)
      modifies this
      ensures State() == Finished(old(State()), ending)
      ensures if ending == RenameFailed then saved == None && tmp == old(tmp) else saved == old(tmp) && tmp == None
    {
      saved := None;
      if ending == RenameFailed {
        info := FailedAttempt(info);
        return;
      }
      saved := tmp;
      tmp := None;
      if ending == ReadFailed || Content(saved) == [] {
        info := FailedAttempt(info);
      } else {
        info := info.(status := Completed);
      }
    }
  }

  lemma {:induction false} FlattenNext(chunks: seq<Bytes>, k: nat)
    requires k < |chunks|
    ensures Flatten(chunks[..k + 1]) == Flatten(chunks[..k]) + chunks[k]
  {
    if k == 0 {
      assert chunks[..1] == [chunks[0]] && chunks[..0] == [];
      assert Flatten([chunks[0]]) == chunks[0] + Flatten([]);
    } else {
      FlattenNext(chunks[1..], k - 1);
      assert chunks[..k + 1][1..] == chunks[1..][..k];
      assert chunks[..k][1..] == chunks[1..][..k - 1];
    }
  }
}
