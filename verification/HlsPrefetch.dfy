/** The prefetch orchestrator: two methods that call each other while updating the registry. */
module HlsPrefetch {
  import opened Wrappers
  import opened PoolSpec
  import opened HlsRegistries
  import opened HlsWalks

  function UrlsOf(segments: seq<HlsSegment>): set<string> { set i | 0 <= i < |segments| :: segments[i].url }

  /** The URLs of the playlists that are in `p` and not in `q` any more. */
  ghost function Gone(p: Playlists, q: Playlists): set<string> {
    set k, url | k in p && k !in q && url in UrlsOf(p[k]) :: url
  }

  /** The URLs whose pool tasks a walk removes: those of the playlists that go when a position moves.  The
      tasks of a playlist that a random pick drops stay. */
  ghost function Unpooled(run: seq<Config>): set<string>
    decreases |run|
  {
    if |run| < 2 then {}
    else if run[0].call.Loop? then Gone(run[0].reg.playlists, run[1].reg.playlists) + Unpooled(run[1..])
    else Unpooled(run[1..])
  }

  /** A step in front of a walk. */
  lemma {:induction false} WalkFrom(c: Config, rest: seq<Config>, answers: set<Probe>)
    requires rest != [] && Walk(rest, answers) && Step(c, rest[0], answers)
    ensures Walk([c] + rest, answers)
    ensures Unpooled([c] + rest) ==
            if c.call.Loop? then Gone(c.reg.playlists, rest[0].reg.playlists) + Unpooled(rest) else Unpooled(rest)
  {
    assert ([c] + rest)[1..] == rest;
  }

  /** Another playlist than the kept one goes, and all its URLs are among `urls`. */
  ghost predicate OneGoes(p: Playlists, keep: string, q: Playlists, urls: set<string>) {
    exists k :: k in p && k != keep && k !in q && forall i | 0 <= i < |p[k]| :: p[k][i].url in urls
  }

  lemma OneGoesWithMore(p: Playlists, keep: string, q: Playlists, urls: set<string>, more: set<string>)
    requires OneGoes(p, keep, q, urls)
    ensures OneGoes(p, keep, q, urls + more)
  {
  }

  lemma EvictedAreGone(r: Registry, hint: HlsSegment, s: Registry, evicted: seq<HlsSegment>)
    requires Begins(r, hint, s)
    requires |r.playlists| <= MAX_HLS_PLAYLIST_KEYS ==> evicted == []
    requires |r.playlists| > MAX_HLS_PLAYLIST_KEYS ==>
               exists k :: k in r.playlists && s.playlists == r.playlists - {k} && evicted == r.playlists[k]
    ensures UrlsOf(evicted) == Gone(r.playlists, s.playlists)
    ensures |r.playlists| > MAX_HLS_PLAYLIST_KEYS ==> OneGoes(r.playlists, hint.key, s.playlists, UrlsOf(evicted))
    ensures |r.playlists| <= MAX_HLS_PLAYLIST_KEYS ==> s.playlists == r.playlists
  {
    if |r.playlists| > MAX_HLS_PLAYLIST_KEYS {
      var k :| k in r.playlists && s.playlists == r.playlists - {k} && evicted == r.playlists[k];
      assert OneGoes(r.playlists, hint.key, s.playlists, UrlsOf(evicted));
    }
    hide UrlsOf;
    if |r.playlists| > MAX_HLS_PLAYLIST_KEYS {
      var k :| k in r.playlists && s.playlists == r.playlists - {k} && evicted == r.playlists[k];
      assert forall l | l in r.playlists :: l !in s.playlists <==> l == k;
    } else {
      NoUrls();
    }
  }

  lemma NoUrls()
    ensures UrlsOf([]) == {}
  {
  }

  /** hls_concurrent_loop, up to the submission of a download or the end of the walk.  The caches and the
      pool may give any of `answers` about a segment; `unpooled` are the URLs whose tasks leave the pool. */
  method HlsConcurrentLoop(registry: HlsRegistry, answers: set<Probe>, hint: HlsSegment)
    returns (outcome: Outcome, unpooled: set<string>, ghost run: seq<Config>)
    requires answers != {} && Sound(Config(registry.State(), Loop(hint)))
    modifies registry
    ensures run != [] && Walk(run, answers) && run[0] == Config(old(registry.State()), Loop(hint))
    ensures run[|run| - 1] == Config(registry.State(), Done(outcome)) && unpooled == Unpooled(run)
    // past eight playlists one other than the hint's goes, and the tasks of its segments with it
    ensures |run| > 1
    ensures |old(registry.playlists)| > MAX_HLS_PLAYLIST_KEYS ==>
              OneGoes(old(registry.playlists), hint.key, run[1].reg.playlists, unpooled)
    ensures |old(registry.playlists)| <= MAX_HLS_PLAYLIST_KEYS ==> run[1].reg.playlists == old(registry.playlists)
    decreases |registry.playlists|, Waiting(Config(registry.State(), Loop(hint))),
              Ahead(Config(registry.State(), Loop(hint))), 1
  {
    hide Step, LoopStep, Sound, Waiting, Ahead, Begins, Finds, ListOf, Downloads, UrlsOf, Gone, Evicted, Walk, OneGoes;
    ghost var c := Config(registry.State(), Loop(hint));
    ghost var d;
    var evicted := registry.PrefetchBegin(hint);
    ghost var r := registry.State();
    EvictedAreGone(c.reg, hint, r, evicted);
    unpooled := UrlsOf(evicted);
    var more := {};
    var active := registry.ActiveSegment(hint);
    if active.None? {
      outcome := Inactive;
      d := Config(r, Done(Inactive));
      LoopStepIs(c, d, active, answers);
      WalkOfOne(d, answers);
      run := [d];
    } else {
      var segment := active.value;
      var downloads := registry.DownloadingCount(segment.key);
      ListOfIs(r.playlists, segment.key);
      if downloads >= 2 {
        outcome := Saturated(segment.key);
        d := Config(r, Done(outcome));
        LoopStepIs(c, d, active, answers);
        WalkOfOne(d, answers);
        run := [d];
      } else {
        var answer :| answer in answers;
        if answer == Missing {
          outcome := Submitted(segment);
          d := Config(r, Done(outcome));
          LoopStepIs(c, d, active, answers);
          WalkOfOne(d, answers);
          run := [d];
        } else {
          var status := if answer == Cached then Completed else Downloading;
          d := Config(r, Complete(segment, status));
          LoopStepIs(c, d, active, answers);
          outcome, more, run := HlsConcurrentComplete(registry, answers, segment, status);
        }
      }
    }
    WalkFrom(c, run, answers);
    run := [c] + run;
    assert run[1].reg == r;
    if |c.reg.playlists| > MAX_HLS_PLAYLIST_KEYS {
      OneGoesWithMore(c.reg.playlists, hint.key, r.playlists, unpooled, more);
    }
    unpooled := unpooled + more;
  }

  lemma WalkOfOne(d: Config, answers: set<Probe>)
    ensures Walk([d], answers) && Unpooled([d]) == {}
  {
  }

  lemma {:induction false} LoopStepIs(c: Config, d: Config, active: Option<HlsSegment>, answers: set<Probe>)
    requires Sound(c) && c.call.Loop? && Begins(c.reg, c.call.hint, d.reg)
    requires Finds(d.reg.playlists, ActiveUrl(d.reg, c.call.hint), active)
    requires if active.None? then d.call == Done(Inactive) else
               var n := Downloads(ListOf(d.reg.playlists, active.value.key));
               || (n >= 2 && d.call == Done(Saturated(active.value.key)))
               || (n < 2 && d.call == Done(Submitted(active.value)) && Missing in answers)
               || (n < 2 && d.call == Complete(active.value, Completed) && Cached in answers)
               || (n < 2 && d.call == Complete(active.value, Downloading) && InFlight in answers)
    ensures Step(c, d, answers) && Sound(d) && (d.call.Done? || Smaller(d, c))
  {
    hide Sound, Smaller;
    assert Step(c, d, answers);
    StepDecreases(c, d, answers);
  }

  lemma ListOfIs(p: Playlists, key: string)
    ensures ListOf(p, key) == if key in p then p[key] else []
  {
  }

  /** No segment follows: a random playlist's first Idle segment, or that playlist is dropped. */
  method PickAnother(registry: HlsRegistry, segment: HlsSegment, status: DownloadStatus) returns (call: Call)
    modifies registry
    ensures PickStep(old(registry.State()), Complete(segment, status), Config(registry.State(), call))
  {
    if registry.playlists == map[] {
      return Done(Emptied);
    }
    var key :| key in registry.playlists;
    var idle := registry.FindIdle(key);
    assert idle == FirstIdle(registry.playlists[key]);
    if idle.Some? {
      return Loop(idle.value);
    }
    registry.EvictPlaylist(key);
    return Complete(segment, status);
  }

  /** hls_concurrent_complete. */
  method HlsConcurrentComplete(registry: HlsRegistry, answers: set<Probe>, segment: HlsSegment, status: DownloadStatus)
    returns (outcome: Outcome, unpooled: set<string>, ghost run: seq<Config>)
    requires answers != {} && Sound(Config(registry.State(), Complete(segment, status)))
    modifies registry
    ensures run != [] && Walk(run, answers) && run[0] == Config(old(registry.State()), Complete(segment, status))
    ensures run[|run| - 1] == Config(registry.State(), Done(outcome)) && unpooled == Unpooled(run)
    decreases |registry.playlists|, Waiting(Config(registry.State(), Complete(segment, status))),
              Ahead(Config(registry.State(), Complete(segment, status))), 0
  {
    hide Step, Sound, Waiting, Ahead, Marks, NextPrefetch, MarkedStep, PickStep, Unpooled, Gone, UrlsOf, Evicted, Walk;
    ghost var c := Config(registry.State(), Complete(segment, status));
    registry.UpdateStatus(segment.url, status);
    ghost var r := registry.State();
    var next := registry.NextPrefetchSegment(segment.key);
    var call;
    if next.Some? {
      call := Loop(next.value);
    } else {
      call := PickAnother(registry, segment, status);
    }
    ghost var d := Config(registry.State(), call);
    CompleteStepIs(c, r, next, d, answers);
    match call {
      case Loop(hint) =>
        outcome, unpooled, run := HlsConcurrentLoop(registry, answers, hint);
      case Complete(s, st) =>
        outcome, unpooled, run := HlsConcurrentComplete(registry, answers, s, st);
      case Done(o) =>
        WalkOfOne(d, answers);
        outcome, unpooled, run := o, {}, [d];
    }
    WalkFrom(c, run, answers);
    assert ([c] + run)[|run|] == Config(registry.State(), Done(outcome));
    assert Unpooled([c] + run) == unpooled;
    run := [c] + run;
  }

  lemma {:induction false} CompleteStepIs(c: Config, r: Registry, next: Option<HlsSegment>, d: Config, answers: set<Probe>)
    requires Sound(c) && c.call.Complete?
    requires Marks(c.reg.playlists, r.playlists, c.call.segment.url, c.call.status)
    requires r == c.reg.(playlists := r.playlists) && NextPrefetch(r, c.call.segment.key, next)
    requires if next.Some? then d == Config(r, Loop(next.value)) else PickStep(r, c.call, d)
    ensures Step(c, d, answers) && Sound(d) && (d.call.Done? || Smaller(d, c))
  {
    hide Sound, Smaller;
    assert Step(c, d, answers);
    StepDecreases(c, d, answers);
  }
}
