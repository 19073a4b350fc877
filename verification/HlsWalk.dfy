/** The prefetch walk as a step relation: `hls_concurrent_loop` and `hls_concurrent_complete`
    calling each other over the registry, whatever the caches answer and whichever playlist the
    random pick lands on. */
module HlsWalks {
  import opened Wrappers
  import opened PoolSpec
  import opened HlsRegistries

  /** What the caches and the pool say about a segment: in memory or on disk, being downloaded, or
      neither. */
  datatype Probe = Cached | InFlight | Missing

  datatype Outcome =
    | Inactive                         // the segment to continue from is not registered
    | Saturated(key: string)           // two downloads of the playlist are under way
    | Submitted(segment: HlsSegment)   // a new download: the walk resumes when it completes
    | Emptied                          // no playlist is left

  datatype Call = Loop(hint: HlsSegment) | Complete(segment: HlsSegment, status: DownloadStatus) | Done(outcome: Outcome)

  datatype Config = Config(reg: Registry, call: Call)

  ghost predicate LoopStep(c: Config, d: Config, answers: set<Probe>)
    requires c.call.Loop?
  {
    && Begins(c.reg, c.call.hint, d.reg)
    && var p, url := d.reg.playlists, ActiveUrl(d.reg, c.call.hint);
       match d.call
       case Loop(_) => false
       case Complete(s, status) =>
         && Finds(p, url, Some(s)) && Downloads(ListOf(p, s.key)) < 2
         && ((status == Completed && Cached in answers) || (status == Downloading && InFlight in answers))
       case Done(Inactive) => Finds(p, url, None)
       case Done(Saturated(key)) =>
         Downloads(ListOf(p, key)) >= 2 && exists s: HlsSegment :: Finds(p, url, Some(s)) && s.key == key
       case Done(Submitted(s)) => Finds(p, url, Some(s)) && Downloads(ListOf(p, s.key)) < 2 && Missing in answers
       case Done(Emptied) => false
  }

  ghost predicate CompleteStep(c: Config, d: Config)
    requires c.call.Complete?
  {
    exists q :: Marks(c.reg.playlists, q, c.call.segment.url, c.call.status) &&
      MarkedStep(c.reg.(playlists := q), c.call, d)
  }

  /** The rest of hls_concurrent_complete once the segment is marked. */
  ghost predicate MarkedStep(r: Registry, call: Call, d: Config)
    requires call.Complete?
  {
    || (exists next: HlsSegment :: NextPrefetch(r, call.segment.key, Some(next)) && d == Config(r, Loop(next)))
    || (NextPrefetch(r, call.segment.key, None) && PickStep(r, call, d))
  }

  ghost predicate PickStep(r: Registry, call: Call, d: Config) {
    || (r.playlists == map[] && d == Config(r, Done(Emptied)))
    || (exists k :: k in r.playlists &&
          var idle := FirstIdle(r.playlists[k]);
          d == if idle.Some? then Config(r, Loop(idle.value)) else Config(Evicted(r, k), call))
  }

  ghost predicate Step(c: Config, d: Config, answers: set<Probe>) {
    match c.call
    case Loop(_) => LoopStep(c, d, answers)
    case Complete(_, _) => CompleteStep(c, d)
    case Done(_) => false
  }

  ghost predicate Walk(run: seq<Config>, answers: set<Probe>)
    decreases |run|
  {
    run != [] && (|run| == 1 || (Step(run[0], run[1], answers) && Walk(run[1..], answers)))
  }

  // ---------------------------------------------------------------------------------------
  // What a step keeps

  ghost predicate Registers(p: Playlists, s: HlsSegment) { exists k, i :: At(p, k, i) && p[k][i] == s }

  /** The registry is well formed, and the call names a registered segment under its own key. */
  ghost predicate Sound(c: Config) {
    && WellFormed(c.reg.playlists)
    && match c.call
       case Loop(hint) => forall k, i | At(c.reg.playlists, k, i) :: c.reg.playlists[k][i].url == hint.url ==> k == hint.key
       case Complete(_, status) => status == Completed || status == Downloading
       case Done(_) => true
  }

  /** Playlists may go; a segment that stays is the same one, except that its status may have
      become Completed or Downloading. */
  ghost predicate Settles(p: Playlists, q: Playlists) {
    forall k | k in q :: k in p && SettlesList(p[k], q[k])
  }

  ghost predicate SettlesList(a: seq<HlsSegment>, b: seq<HlsSegment>) {
    && |a| == |b|
    && forall i | 0 <= i < |a| ::
         b[i] == a[i] || b[i] == a[i].(status := Completed) || b[i] == a[i].(status := Downloading)
  }

  lemma OneHome(p: Playlists, k: string, i: nat, l: string, j: nat)
    requires WellFormed(p) && At(p, k, i) && At(p, l, j) && p[k][i].url == p[l][j].url
    ensures k == l && i == j
  {
    assert k != l ==> Apart(p[k], p[l]);
    assert KeyedAndDistinct(p[k], k);
  }

  lemma MarkedIs(list: seq<HlsSegment>, url: string, status: DownloadStatus, key: string)
    requires KeyedAndDistinct(list, key)
    ensures var m := Marked(list, url, status);
            |m| == |list| && forall i | 0 <= i < |list| ::
              m[i] == if list[i].url == url then list[i].(status := status) else list[i]
  {
  }

  /** In a well-formed registry, marking rewrites exactly the segments with the URL. */
  lemma MarksEverywhere(p: Playlists, q: Playlists, url: string, status: DownloadStatus)
    requires WellFormed(p) && Marks(p, q, url, status)
    ensures q.Keys == p.Keys
    ensures forall k | k in p :: |q[k]| == |p[k]|
    ensures forall k, i | At(p, k, i) ::
              q[k][i] == if p[k][i].url == url then p[k][i].(status := status) else p[k][i]
  {
    if q == p && forall k | k in p :: !Lists(p[k], url) {
      forall k, i | At(p, k, i) ensures p[k][i].url != url {
        PositionOf(p[k], i);
      }
    } else {
      var h :| h in p && Lists(p[h], url) && q == p[h := Marked(p[h], url, status)];
      MarkedIs(p[h], url, status, h);
      var a := Position(p[h], url);
      forall k, i | At(p, k, i) && p[k][i].url == url ensures k == h {
        OneHome(p, k, i, h, a);
      }
    }
  }

  lemma SameUrlsWellFormed(p: Playlists, q: Playlists)
    requires WellFormed(p) && q.Keys <= p.Keys
    requires forall k | k in q :: |q[k]| == |p[k]| &&
               forall i | 0 <= i < |q[k]| :: q[k][i].url == p[k][i].url && q[k][i].key == p[k][i].key
    ensures WellFormed(q)
  {
    forall k | k in q ensures KeyedAndDistinct(q[k], k) {
      assert KeyedAndDistinct(p[k], k);
    }
    forall k, l | k in q && l in q && k != l ensures Apart(q[k], q[l]) {
      assert Apart(p[k], p[l]);
    }
  }

  lemma EvictedStays(r: Registry, key: string)
    requires WellFormed(r.playlists)
    ensures var p := Evicted(r, key).playlists;
            WellFormed(p) && Settles(r.playlists, p) && (forall k | k in p :: k in r.playlists && p[k] == r.playlists[k])
    ensures key in r.playlists ==> |Evicted(r, key).playlists| < |r.playlists|
  {
    var p := Evicted(r, key).playlists;
    SameUrlsWellFormed(r.playlists, p);
    assert p.Keys == r.playlists.Keys - {key};
  }

  lemma MarksSettles(p: Playlists, q: Playlists, url: string, status: DownloadStatus)
    requires WellFormed(p) && Marks(p, q, url, status) && (status == Completed || status == Downloading)
    ensures WellFormed(q) && Settles(p, q)
  {
    MarksEverywhere(p, q, url, status);
    forall k | k in q ensures SettlesList(p[k], q[k]) && forall i | 0 <= i < |q[k]| ::
                                q[k][i].url == p[k][i].url && q[k][i].key == p[k][i].key {
      assert forall i | 0 <= i < |q[k]| :: At(p, k, i);
    }
    SameUrlsWellFormed(p, q);
  }

  lemma SettlesSelf(p: Playlists)
    ensures Settles(p, p)
  {
  }

  lemma SettlesTrans(p: Playlists, q: Playlists, r: Playlists)
    requires Settles(p, q) && Settles(q, r)
    ensures Settles(p, r)
  {
    forall k | k in r ensures k in p && SettlesList(p[k], r[k]) {
      assert SettlesList(q[k], r[k]) && SettlesList(p[k], q[k]);
    }
  }

  // ---------------------------------------------------------------------------------------
  // The measure

  ghost function Urls(p: Playlists): set<string> {
    set k, i | k in p && 0 <= i < |p[k]| :: p[k][i].url
  }

  ghost function IdleUrls(p: Playlists): set<string> {
    set k, i | k in p && 0 <= i < |p[k]| && p[k][i].status == Idle :: p[k][i].url
  }

  /** How many segments follow the URL in its playlist. */
  ghost function Behind(p: Playlists, url: string): nat {
    if exists k :: k in p && Lists(p[k], url) then
      var k :| k in p && Lists(p[k], url);
      |p[k]| - 1 - Position(p[k], url)
    else 0
  }

  /** Idle segments other than the one at hand. */
  ghost function Waiting(c: Config): nat {
    match c.call
    case Loop(hint) => |IdleUrls(c.reg.playlists) - {hint.url}|
    case Complete(s, _) => |IdleUrls(c.reg.playlists) - {s.url}|
    case Done(_) => 0
  }

  /** Segments after the position the walk continues from. */
  ghost function Ahead(c: Config): nat {
    match c.call
    case Loop(hint) => Behind(c.reg.playlists, hint.url)
    case Complete(s, _) => if s.key in c.reg.latest then Behind(c.reg.playlists, c.reg.latest[s.key]) else 0
    case Done(_) => 0
  }

  function Phase(c: Config): nat { if c.call.Loop? then 1 else 0 }

  /** Playlists left, Idle segments elsewhere, segments ahead, phase: lexicographically less. */
  ghost predicate Smaller(d: Config, c: Config) {
    var p, q := |c.reg.playlists|, |d.reg.playlists|;
    || q < p
    || (q == p && Waiting(d) < Waiting(c))
    || (q == p && Waiting(d) == Waiting(c) && Ahead(d) < Ahead(c))
    || (q == p && Waiting(d) == Waiting(c) && Ahead(d) == Ahead(c) && Phase(d) < Phase(c))
  }

  lemma BehindAt(p: Playlists, k: string, i: nat)
    requires WellFormed(p) && At(p, k, i)
    ensures Behind(p, p[k][i].url) == |p[k]| - 1 - i
  {
    var url := p[k][i].url;
    PositionOf(p[k], i);
    assert Lists(p[k], url);
    forall l | l in p && Lists(p[l], url) ensures l == k {
      OneHome(p, k, i, l, Position(p[l], url));
    }
  }

  // ---------------------------------------------------------------------------------------
  // What a step does

  lemma BeginKeepsHint(r: Registry, hint: HlsSegment, s: Registry)
    requires WellFormed(r.playlists) && Begins(r, hint, s)
    ensures WellFormed(s.playlists) && hint.key in s.latest && s.latest[hint.key] == hint.url
    ensures s.playlists.Keys <= r.playlists.Keys && forall k | k in s.playlists :: s.playlists[k] == r.playlists[k]
  {
  }

  lemma FoundIsThatOne(p: Playlists, k: string, i: nat, found: Option<HlsSegment>)
    requires WellFormed(p) && At(p, k, i) && Finds(p, p[k][i].url, found)
    ensures found == Some(p[k][i])
  {
    if found.Some? {
      var l, j :| At(p, l, j) && p[l][j] == found.value;
      OneHome(p, k, i, l, j);
    } else {
      assert false;
    }
  }

  /** A step of hls_concurrent_loop, for a registered segment at slot `i` of playlist `k`: with two segments of
      the playlist downloading it stops; otherwise what the caches say of the segment decides. */
  lemma {:induction false} LoopStepDecides(c: Config, d: Config, answers: set<Probe>, k: string, i: nat)
    requires WellFormed(c.reg.playlists) && c.call.Loop? && LoopStep(c, d, answers)
    requires At(d.reg.playlists, k, i) && d.reg.playlists[k][i].url == c.call.hint.url
    ensures var list := d.reg.playlists[k];
            var n := |set j | 0 <= j < |list| && list[j].status == Downloading|;
            if n >= 2 then d.call == Done(Saturated(k))
            else || (d.call == Done(Submitted(list[i])) && Missing in answers)
                 || (d.call == Complete(list[i], Completed) && Cached in answers)
                 || (d.call == Complete(list[i], Downloading) && InFlight in answers)
  {
    var p: Playlists := d.reg.playlists;
    BeginKeepsHint(c.reg, c.call.hint, d.reg);
    assert ActiveUrl(d.reg, c.call.hint) == p[k][i].url;
    assert KeyedAndDistinct(p[k], k);
    DownloadsCounts(p[k]);
    hide Begins, Finds, WellFormed, KeyedAndDistinct, ActiveUrl;
    match d.call {
      case Complete(s, _) => FoundIsThatOne(p, k, i, Some(s));
      case Done(Inactive) => FoundIsThatOne(p, k, i, None);
      case Done(Submitted(s)) => FoundIsThatOne(p, k, i, Some(s));
      case Done(Saturated(key)) =>
        var s: HlsSegment :| Finds(p, p[k][i].url, Some(s)) && s.key == key;
        FoundIsThatOne(p, k, i, Some(s));
      case _ =>
    }
  }

  /** And for a segment that is not registered any more it stops. */
  lemma LoopStepStops(c: Config, d: Config, answers: set<Probe>)
    requires WellFormed(c.reg.playlists) && c.call.Loop? && LoopStep(c, d, answers)
    requires forall k, i | At(d.reg.playlists, k, i) :: d.reg.playlists[k][i].url != c.call.hint.url
    ensures d.call == Done(Inactive)
  {
    BeginKeepsHint(c.reg, c.call.hint, d.reg);
  }

  /** Slot `i` of playlist `k` was played last in the playlist `key`, and has a segment behind it. */
  ghost predicate HasNext(r: Registry, key: string, k: string, i: int) {
    At(r.playlists, k, i) && i + 1 < |r.playlists[k]| && key in r.latest && r.playlists[k][i].url == r.latest[key]
  }

  ghost predicate FirstIdleAt(list: seq<HlsSegment>, i: int) {
    0 <= i < |list| && list[i].status == Idle && forall j | 0 <= j < i :: list[j].status != Idle
  }

  /** A step of hls_concurrent_complete: the segments with the URL get the status; then the walk goes on
      behind the segment played last in the playlist; or else with the first Idle segment of some playlist,
      which is dropped with its position when it has none; or it ends when no playlist is left. */
  lemma {:induction false} CompleteStepDecides(c: Config, d: Config) returns (r: Registry)
    requires WellFormed(c.reg.playlists) && c.call.Complete? && CompleteStep(c, d)
    ensures var p, q := c.reg.playlists, r.playlists;
            && r.latest == c.reg.latest && q.Keys == p.Keys && (forall k | k in p :: |q[k]| == |p[k]|)
            && forall k, i | At(p, k, i) ::
                 q[k][i] == if p[k][i].url == c.call.segment.url then p[k][i].(status := c.call.status) else p[k][i]
    ensures forall k, i | HasNext(r, c.call.segment.key, k, i) :: d == Config(r, Loop(r.playlists[k][i + 1]))
    ensures (forall k, i :: !HasNext(r, c.call.segment.key, k, i)) ==>
              || (r.playlists == map[] && d == Config(r, Done(Emptied)))
              || (exists k, i :: k in r.playlists && FirstIdleAt(r.playlists[k], i)
                                 && d == Config(r, Loop(r.playlists[k][i])))
              || (exists k :: k in r.playlists && (forall i | 0 <= i < |r.playlists[k]| :: r.playlists[k][i].status != Idle)
                              && d == Config(Registry(r.playlists - {k}, r.latest - {k}), c.call))
  {
    var q :| && Marks(c.reg.playlists, q, c.call.segment.url, c.call.status)
             && MarkedStep(c.reg.(playlists := q), c.call, d);
    r := c.reg.(playlists := q);
    MarksEverywhere(c.reg.playlists, q, c.call.segment.url, c.call.status);
    MarksKeepWellFormed(c.reg.playlists, q, c.call.segment.url, c.call.status);
    AfterMarking(r, c.call, d);
  }

  lemma MarksKeepWellFormed(p: Playlists, q: Playlists, url: string, status: DownloadStatus)
    requires WellFormed(p) && Marks(p, q, url, status)
    ensures WellFormed(q)
  {
    MarksEverywhere(p, q, url, status);
    hide Marks;
    forall k, i | At(q, k, i) ensures At(p, k, i) && q[k][i].url == p[k][i].url && q[k][i].key == p[k][i].key {
      assert At(p, k, i);
    }
    forall k | k in q ensures KeyedAndDistinct(q[k], k) {
      assert KeyedAndDistinct(p[k], k);
      assert forall i | 0 <= i < |q[k]| :: At(q, k, i);
    }
    forall k, l | k in q && l in q && k != l ensures Apart(q[k], q[l]) {
      assert Apart(p[k], p[l]);
      assert forall i | 0 <= i < |q[k]| :: At(q, k, i);
      assert forall i | 0 <= i < |q[l]| :: At(q, l, i);
    }
  }

  lemma {:induction false} AfterMarking(r: Registry, call: Call, d: Config)
    requires WellFormed(r.playlists) && call.Complete? && MarkedStep(r, call, d)
    ensures forall k, i | HasNext(r, call.segment.key, k, i) :: d == Config(r, Loop(r.playlists[k][i + 1]))
    ensures (forall k, i :: !HasNext(r, call.segment.key, k, i)) ==>
              || (r.playlists == map[] && d == Config(r, Done(Emptied)))
              || (exists k, i :: k in r.playlists && FirstIdleAt(r.playlists[k], i)
                                 && d == Config(r, Loop(r.playlists[k][i])))
              || (exists k :: k in r.playlists && (forall i | 0 <= i < |r.playlists[k]| :: r.playlists[k][i].status != Idle)
                              && d == Config(Registry(r.playlists - {k}, r.latest - {k}), call))
  {
    hide WellFormed, NextPrefetch;
    forall k, i | HasNext(r, call.segment.key, k, i) ensures d == Config(r, Loop(r.playlists[k][i + 1])) {
      NextIs(r, call.segment.key, k, i);
    }
    if forall k, i :: !HasNext(r, call.segment.key, k, i) {
      NoNext(r, call.segment.key);
      assert PickStep(r, call, d);
      if r.playlists != map[] || d != Config(r, Done(Emptied)) {
        var k :| k in r.playlists &&
          d == if FirstIdle(r.playlists[k]).Some? then Config(r, Loop(FirstIdle(r.playlists[k]).value))
               else Config(Evicted(r, k), call);
        if FirstIdle(r.playlists[k]).Some? {
          var i := FirstIdleIsFirst(r.playlists[k]);
          assert FirstIdleAt(r.playlists[k], i);
        }
      }
    }
  }

  lemma NextIs(r: Registry, key: string, k: string, i: int)
    requires WellFormed(r.playlists) && HasNext(r, key, k, i)
    ensures !NextPrefetch(r, key, None)
    ensures forall next: HlsSegment | NextPrefetch(r, key, Some(next)) :: next == r.playlists[k][i + 1]
  {
    forall found | NextPrefetch(r, key, found) ensures found == Some(r.playlists[k][i + 1]) {
      NextIsBehind(r, key, k, i, found);
    }
  }

  lemma NoNext(r: Registry, key: string)
    requires WellFormed(r.playlists) && forall k, i :: !HasNext(r, key, k, i)
    ensures forall next: HlsSegment :: !NextPrefetch(r, key, Some(next))
  {
    forall next: HlsSegment | NextPrefetch(r, key, Some(next)) ensures false {
      if k, i :| At(r.playlists, k, i) && key in r.latest && r.playlists[k][i].url == r.latest[key] {
        var behind := HasNext(r, key, k, i);
        NextIsBehind(r, key, k, i, Some(next));
      } else {
        NothingBehind(r, key, Some(next));
      }
    }
  }

  lemma LoopStepDecreases(c: Config, d: Config, answers: set<Probe>)
    requires Sound(c) && c.call.Loop? && LoopStep(c, d, answers)
    ensures Sound(d) && Settles(c.reg.playlists, d.reg.playlists)
    ensures d.call.Done? || Smaller(d, c)
  {
    var hint := c.call.hint;
    var p := c.reg.playlists;
    if |p| > MAX_HLS_PLAYLIST_KEYS {
      var k :| k in p && k != hint.key && d.reg == Evicted(c.reg.(latest := c.reg.latest[hint.key := hint.url]), k);
      EvictedStays(c.reg.(latest := c.reg.latest[hint.key := hint.url]), k);
    } else if d.call.Complete? {
      assert d.reg.playlists == p;
      assert d.call.segment.url == hint.url && Registers(p, d.call.segment);
      var k, i :| At(p, k, i) && p[k][i] == d.call.segment;
      assert KeyedAndDistinct(p[k], k);
    }
  }

  lemma IdleIff(p: Playlists, u: string)
    ensures u in IdleUrls(p) <==> exists k, i :: At(p, k, i) && p[k][i].status == Idle && p[k][i].url == u
  {
    if k, i :| At(p, k, i) && p[k][i].status == Idle && p[k][i].url == u {
      assert k in p && 0 <= i < |p[k]|;
    }
    if u in IdleUrls(p) {
      var k, i :| k in p && 0 <= i < |p[k]| && p[k][i].status == Idle && p[k][i].url == u;
      assert At(p, k, i);
    }
  }

  lemma IdleListed(p: Playlists, k: string, s: HlsSegment)
    requires k in p && s in p[k] && s.status == Idle
    ensures s.url in IdleUrls(p)
  {
    var i :| 0 <= i < |p[k]| && p[k][i] == s;
  }

  lemma IdleAfterMark(p: Playlists, q: Playlists, url: string, status: DownloadStatus)
    requires WellFormed(p) && Marks(p, q, url, status) && status != Idle
    ensures IdleUrls(q) == IdleUrls(p) - {url}
  {
    hide Marks, WellFormed, IdleUrls;
    MarksEverywhere(p, q, url, status);
    forall u ensures u in IdleUrls(q) <==> u in IdleUrls(p) - {url} {
      IdleIff(p, u);
      IdleIff(q, u);
      assert forall k, i :: At(q, k, i) <==> At(p, k, i);
    }
  }

  lemma BehindAfterMark(p: Playlists, q: Playlists, url: string, status: DownloadStatus, u: string)
    requires WellFormed(p) && Marks(p, q, url, status) && (status == Completed || status == Downloading)
    ensures Behind(q, u) == Behind(p, u)
  {
    MarksEverywhere(p, q, url, status);
    MarksSettles(p, q, url, status);
    forall k | k in p ensures |q[k]| == |p[k]| && Position(q[k], u) == Position(p[k], u) {
      assert forall i | 0 <= i < |p[k]| :: At(p, k, i);
      SamePosition(p[k], q[k], u);
    }
    hide Marks, WellFormed;
    BehindSame(p, q, u);
  }

  lemma BehindSame(p: Playlists, q: Playlists, u: string)
    requires WellFormed(p) && WellFormed(q) && q.Keys == p.Keys
    requires forall k | k in p :: |q[k]| == |p[k]| && Position(q[k], u) == Position(p[k], u)
    ensures Behind(q, u) == Behind(p, u)
  {
    hide WellFormed;
    if k :| k in p && Lists(p[k], u) {
      var i := Position(p[k], u);
      assert Lists(q[k], u);
      BehindAt(p, k, i);
      BehindAt(q, k, i);
    } else {
      assert forall k | k in q :: Lists(q[k], u) ==> Lists(p[k], u);
    }
  }

  lemma {:induction false} SamePosition(a: seq<HlsSegment>, b: seq<HlsSegment>, u: string)
    requires |a| == |b| && forall i | 0 <= i < |a| :: a[i].url == b[i].url
    ensures Position(a, u) == Position(b, u)
  {
    if a != [] && a[0].url != u {
      SamePosition(a[1..], b[1..], u);
    }
  }

  /** The next segment lies one behind the position: strictly fewer are ahead of it. */
  lemma NextIsAhead(r: Registry, key: string, next: HlsSegment)
    requires WellFormed(r.playlists) && NextPrefetch(r, key, Some(next))
    ensures key in r.latest && Behind(r.playlists, next.url) < Behind(r.playlists, r.latest[key])
    ensures next.key in r.playlists && next in r.playlists[next.key]
  {
    var p := r.playlists;
    var latest :| Finds(p, r.latest[key], latest) &&
      Some(next) == if latest.None? then None else NextAfter(p, latest.value);
    var k, i :| At(p, k, i) && p[k][i] == latest.value;
    assert KeyedAndDistinct(p[k], k);
    hide WellFormed, Behind, Lists;
    PositionOf(p[k], i);
    assert next == p[k][i + 1] && At(p, k, i + 1);
    BehindAt(p, k, i);
    BehindAt(p, k, i + 1);
  }

  lemma LoopOnRegisteredIsSound(r: Registry, k: string, s: HlsSegment)
    requires WellFormed(r.playlists) && k in r.playlists && s in r.playlists[k]
    ensures Sound(Config(r, Loop(s)))
  {
    var p := r.playlists;
    var i :| 0 <= i < |p[k]| && p[k][i] == s;
    assert KeyedAndDistinct(p[k], k);
    forall l, j | At(p, l, j) && p[l][j].url == s.url ensures l == s.key {
      OneHome(p, l, j, k, i);
    }
  }

  lemma {:induction false} MarkedStepDecreases(c: Config, r: Registry, d: Config)
    requires Sound(c) && c.call.Complete? && r == c.reg.(playlists := r.playlists)
    requires Marks(c.reg.playlists, r.playlists, c.call.segment.url, c.call.status) && MarkedStep(r, c.call, d)
    ensures Sound(d) && Settles(r.playlists, d.reg.playlists)
    ensures d.call.Done? || Smaller(d, c)
  {
    hide Settles, WellFormed, Marks, Behind, NextPrefetch, IdleUrls;
    var p, q, s := c.reg.playlists, r.playlists, c.call.segment;
    MarksSettles(p, q, s.url, c.call.status);
    assert q.Keys == p.Keys by { MarksEverywhere(p, q, s.url, c.call.status); }
    assert |q| == |q.Keys| == |p.Keys| == |p|;
    IdleAfterMark(p, q, s.url, c.call.status);
    SettlesSelf(q);
    if next: HlsSegment :| NextPrefetch(r, s.key, Some(next)) && d == Config(r, Loop(next)) {
      NextIsAhead(r, s.key, next);
      BehindAfterMark(p, q, s.url, c.call.status, r.latest[s.key]);
      LoopOnRegisteredIsSound(r, next.key, next);
      SmallerSet(IdleUrls(q) - {next.url}, IdleUrls(q));
    } else if q == map[] && d == Config(r, Done(Emptied)) {
    } else {
      var k :| k in q && var idle := FirstIdle(q[k]);
        d == if idle.Some? then Config(r, Loop(idle.value)) else Config(Evicted(r, k), c.call);
      if idle :| FirstIdle(q[k]) == Some(idle) {
        LoopOnRegisteredIsSound(r, k, idle);
        IdleListed(q, k, idle);
        SmallerSet(IdleUrls(q) - {idle.url}, IdleUrls(q));
      } else {
        EvictedStays(r, k);
      }
    }
  }

  lemma SoundMarkSettles(c: Config, q: Playlists)
    requires Sound(c) && c.call.Complete? && Marks(c.reg.playlists, q, c.call.segment.url, c.call.status)
    ensures Settles(c.reg.playlists, q)
  {
    MarksSettles(c.reg.playlists, q, c.call.segment.url, c.call.status);
  }

  /** Every step of the walk keeps the registry sound, settles statuses only, and goes down in the
      lexicographic measure. */
  lemma {:induction false} StepDecreases(c: Config, d: Config, answers: set<Probe>)
    requires Sound(c) && Step(c, d, answers)
    ensures Sound(d) && Settles(c.reg.playlists, d.reg.playlists)
    ensures d.call.Done? || Smaller(d, c)
  {
    hide LoopStep, MarkedStep, Sound, Settles, Smaller, Marks;
    if c.call.Loop? {
      LoopStepDecreases(c, d, answers);
    } else {
      var q :| Marks(c.reg.playlists, q, c.call.segment.url, c.call.status) && MarkedStep(c.reg.(playlists := q), c.call, d);
      var r := c.reg.(playlists := q);
      MarkedStepDecreases(c, r, d);
      SoundMarkSettles(c, q);
      SettlesTrans(c.reg.playlists, q, d.reg.playlists);
    }
  }

  // ---------------------------------------------------------------------------------------
  // Whole walks

  lemma DoneIsLast(run: seq<Config>, answers: set<Probe>)
    requires |run| > 1 && Walk(run, answers) && run[1].call.Done?
    ensures |run| == 2
  {
    assert Walk(run[1..], answers);
    assert !Step(run[1], if |run| > 2 then run[2] else run[1], answers);
  }

  lemma {:induction false} WalkStaysSound(run: seq<Config>, answers: set<Probe>)
    requires Walk(run, answers) && Sound(run[0])
    ensures forall i | 0 <= i < |run| :: Sound(run[i])
    ensures Settles(run[0].reg.playlists, run[|run| - 1].reg.playlists)
    decreases |run|
  {
    hide Sound, Step, Settles;
    if |run| == 1 {
      SettlesSelf(run[0].reg.playlists);
    } else {
      StepDecreases(run[0], run[1], answers);
      WalkStaysSound(run[1..], answers);
      SettlesTrans(run[0].reg.playlists, run[1].reg.playlists, run[|run| - 1].reg.playlists);
      forall i | 0 <= i < |run| ensures Sound(run[i]) {
        if i > 0 {
          assert run[i] == run[1..][i - 1];
        }
      }
    }
  }

  /** `u` bounds the number of URLs registered and the length of every playlist. */
  ghost predicate Within(p: Playlists, u: nat) {
    |Urls(p)| <= u && forall k | k in p :: |p[k]| <= u
  }

  function Mixed(playlists: nat, waiting: nat, ahead: nat, phase: nat, u: nat): nat {
    ((playlists * (u + 1) + waiting) * (u + 1) + ahead) * 2 + phase
  }

  ghost function Rank(c: Config, u: nat): nat {
    Mixed(|c.reg.playlists|, Waiting(c), Ahead(c), Phase(c), u)
  }

  lemma {:induction false} LexicographicallyLess(a: nat, x: nat, b: nat, y: nat, u: nat)
    requires x <= u && (a < b || (a == b && x < y))
    ensures a * (u + 1) + x < b * (u + 1) + y
  {
    if a < b {
      assert (a + 1) * (u + 1) <= b * (u + 1);
    }
  }

  lemma {:induction false} MixedLess(q: nat, p: nat, wd: nat, wc: nat, ad: nat, ac: nat, hd: nat, hc: nat, u: nat)
    requires wd <= u && ad <= u && hd <= 1
    requires q < p || (q == p && (wd < wc || (wd == wc && (ad < ac || (ad == ac && hd < hc)))))
    ensures Mixed(q, wd, ad, hd, u) < Mixed(p, wc, ac, hc, u)
  {
    if q < p || wd < wc {
      LexicographicallyLess(q, wd, p, wc, u);
    }
    var x, y := q * (u + 1) + wd, p * (u + 1) + wc;
    if x < y || ad < ac {
      LexicographicallyLess(x, ad, y, ac, u);
    }
  }

  lemma SmallerRank(d: Config, c: Config, u: nat)
    requires Smaller(d, c) && Waiting(d) <= u && Ahead(d) <= u
    ensures Rank(d, u) < Rank(c, u)
  {
    hide Waiting, Ahead, Mixed;
    MixedLess(|d.reg.playlists|, |c.reg.playlists|, Waiting(d), Waiting(c), Ahead(d), Ahead(c), Phase(d), Phase(c), u);
  }

  lemma SettlesWithin(p: Playlists, q: Playlists, u: nat)
    requires Within(p, u) && Settles(p, q)
    ensures Within(q, u)
  {
    assert forall k | k in q :: SettlesList(p[k], q[k]);
    forall url | url in Urls(q) ensures url in Urls(p) {
      var k, i :| k in q && 0 <= i < |q[k]| && q[k][i].url == url;
      assert k in p && 0 <= i < |p[k]| && p[k][i].url == url;
    }
    SmallerSet(Urls(q), Urls(p));
  }

  lemma IdleWithin(p: Playlists, cur: string)
    ensures |IdleUrls(p) - {cur}| <= |Urls(p)|
  {
    forall url | url in IdleUrls(p) ensures url in Urls(p) {
      var k, i :| k in p && 0 <= i < |p[k]| && p[k][i].status == Idle && p[k][i].url == url;
    }
    SmallerSet(IdleUrls(p) - {cur}, Urls(p));
  }

  lemma {:induction false} MeasureWithin(c: Config, u: nat)
    requires Within(c.reg.playlists, u)
    ensures Waiting(c) <= u && Ahead(c) <= u
  {
    hide IdleUrls, Urls, Position, Lists;
    match c.call {
      case Loop(hint) => IdleWithin(c.reg.playlists, hint.url);
      case Complete(s, _) => IdleWithin(c.reg.playlists, s.url);
      case Done(_) =>
    }
  }

  /** Termination, with a bound: no walk from a sound configuration is longer than this. */
  lemma {:induction false} EveryWalkIsBounded(run: seq<Config>, answers: set<Probe>, u: nat)
    requires Walk(run, answers) && Sound(run[0]) && Within(run[0].reg.playlists, u)
    ensures |run| <= Rank(run[0], u) + 2
    decreases |run|
  {
    hide Sound, Step, Settles, Smaller, Rank, Within;
    if |run| > 1 {
      StepDecreases(run[0], run[1], answers);
      SettlesWithin(run[0].reg.playlists, run[1].reg.playlists, u);
      MeasureWithin(run[1], u);
      var rest := run[1..];
      if run[1].call.Done? {
        DoneIsLast(run, answers);
      } else {
        SmallerRank(run[1], run[0], u);
        EveryWalkIsBounded(rest, answers, u);
      }
    }
  }

  /** The call is for a registered segment, so the walk cannot stop for want of one. */
  ghost predicate OnCourse(c: Config) {
    match c.call
    case Loop(hint) => hint.key in c.reg.playlists && hint in c.reg.playlists[hint.key]
    case Complete(_, _) => true
    case Done(o) =>
      && o != Inactive
      && (o == Emptied <==> c.reg.playlists == map[])
      && (o.Saturated? ==> Downloads(ListOf(c.reg.playlists, o.key)) >= 2)
  }

  ghost predicate NothingDownloading(p: Playlists) {
    forall k | k in p :: Downloads(p[k]) == 0
  }

  lemma LoopStaysOnCourse(c: Config, d: Config, answers: set<Probe>)
    requires Sound(c) && OnCourse(c) && c.call.Loop? && LoopStep(c, d, answers)
    ensures OnCourse(d)
    ensures forall k | k in d.reg.playlists :: k in c.reg.playlists && d.reg.playlists[k] == c.reg.playlists[k]
    ensures d.call.Done? && d.call.outcome.Submitted? ==> Missing in answers
    ensures !d.call.Loop?
    ensures d.call.Complete? ==> d.call.status == Completed || InFlight in answers
    ensures d.call.Done? ==> d.call.outcome.Submitted? || d.call.outcome.Saturated?
  {
    var hint := c.call.hint;
    var p, q := c.reg.playlists, d.reg.playlists;
    assert hint.key in q && q[hint.key] == p[hint.key];
    var i :| 0 <= i < |q[hint.key]| && q[hint.key][i] == hint;
    assert At(q, hint.key, i);
    assert q != map[];
  }

  lemma MarkedStaysOnCourse(r: Registry, call: Call, d: Config)
    requires call.Complete? && WellFormed(r.playlists) && MarkedStep(r, call, d)
    ensures OnCourse(d)
    ensures forall k | k in d.reg.playlists :: k in r.playlists && d.reg.playlists[k] == r.playlists[k]
    ensures d.call.Complete? ==> d.call == call
    ensures d.call.Done? ==> d.call.outcome == Emptied
  {
    if next: HlsSegment :| NextPrefetch(r, call.segment.key, Some(next)) && d == Config(r, Loop(next)) {
      NextIsAhead(r, call.segment.key, next);
    } else if r.playlists != map[] {
      var k :| k in r.playlists && var idle := FirstIdle(r.playlists[k]);
        d == if idle.Some? then Config(r, Loop(idle.value)) else Config(Evicted(r, k), call);
      assert KeyedAndDistinct(r.playlists[k], k);
    }
  }

  lemma MarkCompletedStaysQuiet(p: Playlists, q: Playlists, url: string)
    requires WellFormed(p) && NothingDownloading(p) && Marks(p, q, url, Completed)
    ensures NothingDownloading(q)
  {
    hide Marks, WellFormed;
    MarksEverywhere(p, q, url, Completed);
    forall k | k in q ensures Downloads(q[k]) == 0 {
      assert forall i | 0 <= i < |q[k]| :: At(p, k, i);
    }
  }

  /** The configuration of a walk that meets nothing but cached segments. */
  ghost predicate Quiet(c: Config) {
    && NothingDownloading(c.reg.playlists)
    && match c.call
       case Loop(_) => true
       case Complete(_, status) => status == Completed
       case Done(o) => o == Emptied
  }

  lemma EmptiedLeavesNothing(c: Config)
    requires OnCourse(c) && c.call.Done?
    ensures c.call.outcome == Emptied ==> c.reg.playlists == map[]
  {
  }

  lemma {:induction false} StepStaysOnCourse(c: Config, d: Config, answers: set<Probe>)
    requires Sound(c) && OnCourse(c) && Step(c, d, answers)
    ensures OnCourse(d)
    ensures Quiet(c) && answers == {Cached} ==> Quiet(d)
    ensures d.call.Done? && d.call.outcome.Submitted? ==> Missing in answers
  {
    hide LoopStep, MarkedStep, Marks;
    if c.call.Loop? {
      LoopStaysOnCourse(c, d, answers);
    } else {
      var p, s := c.reg.playlists, c.call.segment;
      var q :| Marks(p, q, s.url, c.call.status) && MarkedStep(c.reg.(playlists := q), c.call, d);
      MarksSettles(p, q, s.url, c.call.status);
      MarkedStaysOnCourse(c.reg.(playlists := q), c.call, d);
      if Quiet(c) {
        MarkCompletedStaysQuiet(p, q, s.url);
      }
    }
  }

  /** How a walk from a registered segment may end: never for want of a segment; with a submission
      only if something was missing; saturated only if two downloads of that playlist are marked;
      and when all is cached and nothing was downloading, with every playlist evicted. */
  lemma {:induction false} OutcomeIsExact(run: seq<Config>, answers: set<Probe>)
    requires Walk(run, answers) && Sound(run[0]) && OnCourse(run[0]) && !run[0].call.Done?
    ensures var c := run[|run| - 1];
            && OnCourse(c)
            && (c.call.Done? && c.call.outcome.Submitted? ==> Missing in answers)
            && (c.call.Done? && Quiet(run[0]) && answers == {Cached} ==>
                  c.call.outcome == Emptied && c.reg.playlists == map[])
    decreases |run|
  {
    hide Sound, OnCourse, Step, NothingDownloading;
    if |run| > 1 {
      StepDecreases(run[0], run[1], answers);
      StepStaysOnCourse(run[0], run[1], answers);
      var rest := run[1..];
      if run[1].call.Done? {
        DoneIsLast(run, answers);
        EmptiedLeavesNothing(run[1]);
      } else {
        OutcomeIsExact(rest, answers);
      }
    }
  }

  // ---------------------------------------------------------------------------------------
  // URLs in two playlists

  lemma SmallerTrans(e: Config, d: Config, c: Config)
    requires Smaller(e, d) && Smaller(d, c)
    ensures Smaller(e, c)
  {
    hide Waiting, Ahead, Phase;
  }

  /** A walk that has not ended is lower in the measure than where it began. */
  lemma {:induction false} WalkDecreases(run: seq<Config>, answers: set<Probe>)
    requires |run| > 1 && Walk(run, answers) && Sound(run[0]) && !run[|run| - 1].call.Done?
    ensures Smaller(run[|run| - 1], run[0])
    decreases |run|
  {
    hide Sound, Step, Settles, Smaller;
    StepDecreases(run[0], run[1], answers);
    if |run| > 2 {
      if run[1].call.Done? {
        DoneIsLast(run, answers);
      }
      WalkDecreases(run[1..], answers);
      SmallerTrans(run[|run| - 1], run[1], run[0]);
    }
  }

  /** Playlists of `p`, with the same segments in other states. */
  ghost predicate ShapedWithin(q: Playlists, p: Playlists) {
    forall k | k in q :: k in p && SameSegments(q[k], p[k])
  }

  ghost predicate SameSegments(a: seq<HlsSegment>, b: seq<HlsSegment>) {
    |a| == |b| && forall i | 0 <= i < |a| :: a[i].url == b[i].url && a[i].key == b[i].key
  }

  /** A walk over playlists of `p` that comes back to where it was. */
  ghost predicate Returns(p: Playlists, run: seq<Config>, answers: set<Probe>) {
    && |run| > 1 && Walk(run, answers) && run[|run| - 1] == run[0]
    && run[0].call.Loop? && OnCourse(run[0]) && ShapedWithin(run[0].reg.playlists, p)
  }

  lemma ShapeIsWellFormed(q: Playlists, p: Playlists)
    requires WellFormed(p) && ShapedWithin(q, p)
    ensures WellFormed(q)
  {
    forall k | k in q
      ensures k in p && |q[k]| == |p[k]|
      ensures forall i | 0 <= i < |q[k]| :: q[k][i].url == p[k][i].url && q[k][i].key == p[k][i].key
    {
      assert SameSegments(q[k], p[k]);
    }
    SameUrlsWellFormed(p, q);
  }

  lemma DistinctUrlsNeverReturn(p: Playlists, run: seq<Config>, answers: set<Probe>)
    requires WellFormed(p)
    ensures !Returns(p, run, answers)
  {
    hide WellFormed, Smaller, Walk, ShapedWithin, Sound;
    if Returns(p, run, answers) {
      var c := run[0];
      ShapeIsWellFormed(c.reg.playlists, p);
      LoopOnRegisteredIsSound(c.reg, c.call.hint.key, c.call.hint);
      assert c == Config(c.reg, Loop(c.call.hint));
      WalkDecreases(run, answers);
      NotSmallerThanItself(c);
    }
  }

  lemma NotSmallerThanItself(c: Config)
    ensures !Smaller(c, c)
  {
  }

  /** The list with every status Completed, and one Idle at `j`. */
  function Finished(list: seq<HlsSegment>): seq<HlsSegment> {
    seq(|list|, i requires 0 <= i < |list| => list[i].(status := Completed))
  }

  function OneIdle(list: seq<HlsSegment>, j: nat): seq<HlsSegment>
    requires j < |list|
  {
    Finished(list)[j := list[j].(status := Idle)]
  }

  lemma {:induction false} OnlyIdle(list: seq<HlsSegment>, j: nat)
    requires j < |list| && list[j].status == Idle && forall i | 0 <= i < |list| && i != j :: list[i].status != Idle
    ensures FirstIdle(list) == Some(list[j])
  {
    if j > 0 {
      OnlyIdle(list[1..], j - 1);
    }
  }

  lemma FinishedIsQuiet(list: seq<HlsSegment>, key: string, i: nat)
    requires KeyedAndDistinct(list, key) && i < |list|
    ensures Downloads(Finished(list)) == 0 && Lists(Finished(list), list[i].url)
    ensures Marked(Finished(list), list[i].url, Completed) == Finished(list)
  {
    PositionOf(Finished(list), i);
  }

  /** Every listed segment done, but for one Idle copy of a URL that a second playlist lists too. */
  function SharedRegistry(p: Playlists, k: string, l: string, j: nat): Registry
    requires k in p && l in p && j < |p[l]|
  {
    Registry(map[k := Finished(p[k]), l := OneIdle(p[l], j)], map[l := p[l][j].url])
  }

  lemma {:induction false} BackAndForth(p: Playlists, k: string, i: nat, l: string, j: nat)
    requires k in p && l in p && k != l && i < |p[k]| && j < |p[l]| && p[k][i].url == p[l][j].url
    requires KeyedAndDistinct(p[k], k) && KeyedAndDistinct(p[l], l)
    ensures var r := SharedRegistry(p, k, l, j);
            var c, d := Config(r, Loop(r.playlists[l][j])), Config(r, Complete(r.playlists[k][i], Completed));
            Step(c, d, {Cached}) && Step(d, c, {Cached})
  {
    hide Finished, OneIdle, Marked, Position, Lists, FirstIdle, KeyedAndDistinct;
    var r := SharedRegistry(p, k, l, j);
    var q, u := r.playlists, p[l][j].url;
    SharedFacts(p, k, i, l, j);
    var c, d := Config(r, Loop(q[l][j])), Config(r, Complete(q[k][i], Completed));
    assert r.latest[l := u] == r.latest;
    assert |q| == 2 by {
      assert q.Keys == {k, l};
    }
    assert At(q, k, i);
    assert Finds(q, u, Some(q[k][i]));
    assert LoopStep(c, d, {Cached});
    assert q[k := q[k]] == q;
    assert Marks(q, q, u, Completed);
    assert NextPrefetch(r, k, None);
    assert PickStep(r, d.call, c);
    assert r == d.reg.(playlists := q);
    assert MarkedStep(r, d.call, c);
  }

  lemma SharedFacts(p: Playlists, k: string, i: nat, l: string, j: nat)
    requires k in p && l in p && k != l && i < |p[k]| && j < |p[l]| && p[k][i].url == p[l][j].url
    requires KeyedAndDistinct(p[k], k) && KeyedAndDistinct(p[l], l)
    ensures var q, u := SharedRegistry(p, k, l, j).playlists, p[l][j].url;
            && |q[k]| == |p[k]| && |q[l]| == |p[l]|
            && q[k][i].url == u && q[k][i].key == k && q[l][j].url == u && q[l][j].key == l
            && Downloads(q[k]) == 0 && Lists(q[k], u) && Marked(q[k], u, Completed) == q[k]
            && FirstIdle(q[l]) == Some(q[l][j]) && SameSegments(q[k], p[k]) && SameSegments(q[l], p[l])
  {
    FinishedIsQuiet(p[k], k, i);
    hide Downloads, Lists, Marked;
    OnlyIdle(OneIdle(p[l], j), j);
  }

  /** For playlists without repeats of their own: no walk over them, in whatever state their segments
      are, ever comes back to where it was, exactly when no URL is in two of them. */
  lemma {:induction false} WalksNeverReturnExactly(p: Playlists)
    requires forall k | k in p :: KeyedAndDistinct(p[k], k)
    ensures WellFormed(p) <==> forall run, answers :: !Returns(p, run, answers)
  {
    hide Step, Walk, OnCourse, ShapedWithin, KeyedAndDistinct;
    if WellFormed(p) {
      forall run, answers ensures !Returns(p, run, answers) {
        DistinctUrlsNeverReturn(p, run, answers);
      }
    } else {
      var k, l :| k in p && l in p && k != l && !Apart(p[k], p[l]);
      var i, j :| 0 <= i < |p[k]| && 0 <= j < |p[l]| && p[k][i].url == p[l][j].url;
      var run := SharedUrlReturns(p, k, i, l, j);
    }
  }

  /** With one URL in two playlists the search may find the completed copy while the pick finds the
      idle one, for ever. */
  lemma {:induction false} SharedUrlReturns(p: Playlists, k: string, i: nat, l: string, j: nat) returns (run: seq<Config>)
    requires k in p && l in p && k != l && i < |p[k]| && j < |p[l]| && p[k][i].url == p[l][j].url
    requires KeyedAndDistinct(p[k], k) && KeyedAndDistinct(p[l], l)
    ensures Returns(p, run, {Cached})
  {
    hide Step, FirstIdle, Downloads, Marked, Lists, KeyedAndDistinct, OneIdle, Finished, SameSegments;
    var r := SharedRegistry(p, k, l, j);
    SharedFacts(p, k, i, l, j);
    BackAndForth(p, k, i, l, j);
    var c, d := Config(r, Loop(r.playlists[l][j])), Config(r, Complete(r.playlists[k][i], Completed));
    run := [c, d, c];
    assert run[1..] == [d, c] && [d, c][1..] == [c];
    assert Walk([c], {Cached}) && Walk([d, c], {Cached});
    assert r.playlists[l][j] in r.playlists[l];
  }
}
