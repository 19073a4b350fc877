/** The registry of HLS segments known from playlists, per playlist key and in playlist order,
    with the URL last played in each playlist. */
module HlsRegistries {
  import opened Wrappers
  import opened PoolSpec
  import opened Slots

  datatype HlsSegment = HlsSegment(key: string, url: string, start: int, end: Option<int>,
                                   status: DownloadStatus)

  type Playlists = map<string, seq<HlsSegment>>

  datatype Registry = Registry(playlists: Playlists, latest: map<string, string>)

  const MAX_HLS_PLAYLIST_KEYS := 8

  // ---------------------------------------------------------------------------------------
  // One list

  /** Where the first segment with this URL is; the length of the list when there is none. */
  function Position(list: seq<HlsSegment>, url: string): (i: nat)
    ensures i <= |list|
    ensures forall j | 0 <= j < i :: list[j].url != url
    ensures i < |list| ==> list[i].url == url
  {
    if list == [] || list[0].url == url then 0 else 1 + Position(list[1..], url)
  }

  predicate Lists(list: seq<HlsSegment>, url: string) { Position(list, url) < |list| }

  function Following(list: seq<HlsSegment>, url: string): Option<HlsSegment> {
    var i := Position(list, url) + 1;
    if i < |list| then Some(list[i]) else None
  }

  function Marked(list: seq<HlsSegment>, url: string, status: DownloadStatus): seq<HlsSegment> {
    var i := Position(list, url);
    if i < |list| then list[i := list[i].(status := status)] else list
  }

  function Downloads(list: seq<HlsSegment>): (n: nat)
    ensures n == 0 <==> forall i | 0 <= i < |list| :: list[i].status != Downloading
  {
    if list == [] then 0
    else Downloads(list[..|list| - 1]) + if list[|list| - 1].status == Downloading then 1 else 0
  }

  function FirstIdle(list: seq<HlsSegment>): (found: Option<HlsSegment>)
    ensures found.Some? ==> found.value in list && found.value.status == Idle
    ensures found.None? ==> forall i | 0 <= i < |list| :: list[i].status != Idle
  {
    if list == [] then None
    else if list[0].status == Idle then Some(list[0])
    else FirstIdle(list[1..])
  }

  /** add_segment on the list of the segment's own key: a URL already listed is left alone. */
  function Added(list: seq<HlsSegment>, segment: HlsSegment): seq<HlsSegment> {
    if Lists(list, segment.url) then list else list + [segment]
  }

  /** register_segments: the key is forced, the segments are added in order. */
  function Registered(list: seq<HlsSegment>, key: string, segments: seq<HlsSegment>): seq<HlsSegment>
    decreases |segments|
  {
    if segments == [] then list
    else Registered(Added(list, segments[0].(key := key)), key, segments[1..])
  }

  // ---------------------------------------------------------------------------------------
  // The whole registry; where the source searches its hash map, any order of keys is allowed

  ghost predicate At(p: Playlists, k: string, i: int) { k in p && 0 <= i < |p[k]| }

  ghost predicate Finds(p: Playlists, url: string, found: Option<HlsSegment>) {
    match found
    case None => forall k, i | At(p, k, i) :: p[k][i].url != url
    case Some(s) => s.url == url && exists k, i :: At(p, k, i) && p[k][i] == s
  }

  /** update_status: some list with the URL has its first such segment rewritten. */
  ghost predicate Marks(p: Playlists, q: Playlists, url: string, status: DownloadStatus) {
    || (q == p && forall k | k in p :: !Lists(p[k], url))
    || (exists k :: k in p && Lists(p[k], url) && q == p[k := Marked(p[k], url, status)])
  }

  function Evicted(r: Registry, key: string): Registry {
    Registry(r.playlists - {key}, r.latest - {key})
  }

  /** prefetch_begin: the position moves; past eight playlists, one other than this one goes. */
  ghost predicate Begins(r: Registry, hint: HlsSegment, s: Registry) {
    var t := r.(latest := r.latest[hint.key := hint.url]);
    if |r.playlists| <= MAX_HLS_PLAYLIST_KEYS then s == t
    else exists k :: k in r.playlists && k != hint.key && s == Evicted(t, k)
  }

  function ActiveUrl(r: Registry, hint: HlsSegment): string {
    if hint.key in r.latest then r.latest[hint.key] else hint.url
  }

  function NextAfter(p: Playlists, current: HlsSegment): Option<HlsSegment> {
    if current.key in p then Following(p[current.key], current.url) else None
  }

  ghost predicate NextPrefetch(r: Registry, key: string, found: Option<HlsSegment>) {
    if key !in r.latest then found == None
    else exists latest :: Finds(r.playlists, r.latest[key], latest) &&
           found == if latest.None? then None else NextAfter(r.playlists, latest.value)
  }

  // ---------------------------------------------------------------------------------------
  // Well-formed registries

  ghost predicate KeyedAndDistinct(list: seq<HlsSegment>, key: string) {
    && (forall i | 0 <= i < |list| :: list[i].key == key)
    && (forall i, j | 0 <= i < j < |list| :: list[i].url != list[j].url)
  }

  /** Segments sit under their own key, and no URL is registered twice. */
  ghost predicate WellFormed(p: Playlists) {
    && (forall k | k in p :: KeyedAndDistinct(p[k], k))
    && (forall k, l | k in p && l in p && k != l :: Apart(p[k], p[l]))
  }

  ghost predicate Apart(a: seq<HlsSegment>, b: seq<HlsSegment>) {
    forall i, j | 0 <= i < |a| && 0 <= j < |b| :: a[i].url != b[j].url
  }

  lemma PositionOf(list: seq<HlsSegment>, i: nat)
    requires i < |list| && forall a, b | 0 <= a < b < |list| :: list[a].url != list[b].url
    ensures Position(list, list[i].url) == i
  {
  }

  lemma ApartIsListing(a: seq<HlsSegment>, b: seq<HlsSegment>)
    ensures Apart(a, b) <==> forall url | Lists(b, url) :: !Lists(a, url)
  {
    if Apart(a, b) {
      forall url | Lists(b, url) ensures !Lists(a, url) {
        var i, j := Position(a, url), Position(b, url);
      }
    } else {
      var i, j :| 0 <= i < |a| && 0 <= j < |b| && a[i].url == b[j].url;
      ListsAt(a, i);
      ListsAt(b, j);
    }
  }

  /** The count is of the segments that are Downloading. */
  lemma {:induction false} DownloadsCounts(list: seq<HlsSegment>)
    ensures Downloads(list) == |set i | 0 <= i < |list| && list[i].status == Downloading|
  {
    var all := set i | 0 <= i < |list| && list[i].status == Downloading;
    if list == [] {
      assert all == {};
    } else {
      var n := |list| - 1;
      DownloadsCounts(list[..n]);
      DownloadingOfMore(list[..n], list[n]);
      assert list[..n] + [list[n]] == list;
    }
  }

  lemma DownloadingOfMore(list: seq<HlsSegment>, s: HlsSegment)
    ensures var more := list + [s];
            (set i | 0 <= i < |more| && more[i].status == Downloading) ==
            (set i | 0 <= i < |list| && list[i].status == Downloading)
            + if s.status == Downloading then {|list|} else {}
  {
    var more := list + [s];
    assert forall i | 0 <= i < |list| :: more[i] == list[i];
  }

  /** An Idle segment with none before it. */
  lemma {:induction false} FirstIdleIsFirst(list: seq<HlsSegment>) returns (i: nat)
    requires FirstIdle(list).Some?
    ensures i < |list| && FirstIdle(list).value == list[i] && list[i].status == Idle
    ensures forall j | 0 <= j < i :: list[j].status != Idle
  {
    i := 0;
    if list[0].status != Idle {
      i := FirstIdleIsFirst(list[1..]);
      assert forall j | 0 <= j < i :: list[j + 1] == list[1..][j];
      i := i + 1;
    }
  }

  /** What comes after the segment played last: the segment behind it in its playlist, if there is one. */
  lemma {:induction false} NextIsBehind(r: Registry, key: string, k: string, i: nat, found: Option<HlsSegment>)
    requires WellFormed(r.playlists) && At(r.playlists, k, i)
    requires key in r.latest && r.playlists[k][i].url == r.latest[key] && NextPrefetch(r, key, found)
    ensures found == if i + 1 < |r.playlists[k]| then Some(r.playlists[k][i + 1]) else None
  {
    var p := r.playlists;
    var latest :| Finds(p, r.latest[key], latest) &&
      found == if latest.None? then None else NextAfter(p, latest.value);
    var l, j :| At(p, l, j) && p[l][j] == latest.value;
    assert k != l ==> Apart(p[k], p[l]);
    assert KeyedAndDistinct(p[k], k);
    PositionOf(p[k], i);
  }

  /** And nothing, when no position is known or the segment played last is not registered any more. */
  lemma NothingBehind(r: Registry, key: string, found: Option<HlsSegment>)
    requires NextPrefetch(r, key, found)
    requires key in r.latest ==> forall k, i | At(r.playlists, k, i) :: r.playlists[k][i].url != r.latest[key]
    ensures found == None
  {
  }

  lemma ListsAt(list: seq<HlsSegment>, i: nat)
    requires i < |list|
    ensures Lists(list, list[i].url)
  {
  }

  lemma {:induction false} AddedFacts(list: seq<HlsSegment>, key: string, segment: HlsSegment)
    requires KeyedAndDistinct(list, key) && segment.key == key
    ensures KeyedAndDistinct(Added(list, segment), key) && list <= Added(list, segment)
    ensures forall url :: Lists(Added(list, segment), url) <==> Lists(list, url) || url == segment.url
  {
    var more := Added(list, segment);
    forall url ensures Lists(more, url) <==> Lists(list, url) || url == segment.url {
      if Lists(list, url) {
        assert more[Position(list, url)].url == url;
      } else if url == segment.url {
        assert more[|more| - 1].url == url;
      }
    }
  }

  /** Registering keeps what was there, in place and with its status; every new URL is listed
      once, under the forced key; and nothing else is. */
  lemma {:induction false} RegisterIsOrderedDedupe(list: seq<HlsSegment>, key: string, segments: seq<HlsSegment>)
    requires KeyedAndDistinct(list, key)
    ensures var r := Registered(list, key, segments);
            && KeyedAndDistinct(r, key) && list <= r
            && (forall url :: Lists(r, url) <==>
                  Lists(list, url) || exists i :: 0 <= i < |segments| && segments[i].url == url)
    decreases |segments|
  {
    hide Added, KeyedAndDistinct, Lists;
    if segments != [] {
      var s := segments[0].(key := key);
      var more := Added(list, s);
      AddedFacts(list, key, s);
      RegisterIsOrderedDedupe(more, key, segments[1..]);
      var r := Registered(list, key, segments);
      forall url ensures Lists(r, url) <==>
                         Lists(list, url) || exists i :: 0 <= i < |segments| && segments[i].url == url {
        if i :| 0 <= i < |segments| && segments[i].url == url {
          assert i > 0 ==> segments[1..][i - 1].url == url;
        }
        if j :| 0 <= j < |segments[1..]| && segments[1..][j].url == url {
          assert segments[j + 1].url == url;
        }
      }
    }
  }

  lemma AddedLists(list: seq<HlsSegment>, segment: HlsSegment, url: string)
    ensures Lists(Added(list, segment), url) <==> Lists(list, url) || url == segment.url
  {
    var more := Added(list, segment);
    if Lists(list, url) {
      assert more[Position(list, url)].url == url;
    } else if url == segment.url {
      assert more[|more| - 1].url == url;
    }
  }

  /** The segments under the forced key. */
  function Keyed(segments: seq<HlsSegment>, key: string): (r: seq<HlsSegment>)
    ensures |r| == |segments| && forall i | 0 <= i < |r| :: r[i] == segments[i].(key := key)
  {
    seq(|segments|, i requires 0 <= i < |segments| => segments[i].(key := key))
  }

  predicate New(list: seq<HlsSegment>, segments: seq<HlsSegment>, i: int) {
    && 0 <= i < |segments| && !Lists(list, segments[i].url)
    && forall j | 0 <= j < i :: segments[j].url != segments[i].url
  }

  /** The slots of the new segments. */
  ghost function NewSlots(list: seq<HlsSegment>, segments: seq<HlsSegment>): nat -> bool { i => New(list, segments, i) }

  /** The list grows by exactly the segments whose URL is neither listed nor comes earlier, as they are but
      for their key, in order. */
  lemma {:induction false} RegisteredIs(list: seq<HlsSegment>, key: string, segments: seq<HlsSegment>) returns (at: seq<nat>)
    ensures var r := Registered(list, key, segments);
            list <= r && KeepsSlots(Keyed(segments, key), r[|list|..], NewSlots(list, segments), at)
    decreases |segments|
  {
    if segments == [] {
      at := [];
    } else {
      var s := segments[0].(key := key);
      var more := Added(list, s);
      at := RegisteredIs(more, key, segments[1..]);
      FirstAdded(list, key, segments);
      assert NewSlots(list, segments)(0) == New(list, segments, 0);
      NewSlotsBehind(list, segments, s);
      hide Added, Registered, KeepsSlots, New, NewSlots;
      at := KeepsSlotsOfCons(Keyed(segments, key), Registered(more, key, segments[1..])[|more|..],
                             NewSlots(list, segments), NewSlots(more, segments[1..]), at);
    }
  }

  lemma NewSlotsBehind(list: seq<HlsSegment>, segments: seq<HlsSegment>, s: HlsSegment)
    requires segments != [] && s.url == segments[0].url
    ensures forall i: nat :: NewSlots(Added(list, s), segments[1..])(i) == NewSlots(list, segments)(i + 1)
  {
    hide New, Added;
    forall i: nat ensures NewSlots(Added(list, s), segments[1..])(i) == NewSlots(list, segments)(i + 1) {
      NewBehind(list, segments, s, i);
    }
  }

  lemma {:induction false} FirstAdded(list: seq<HlsSegment>, key: string, segments: seq<HlsSegment>)
    requires segments != []
    requires var more := Added(list, segments[0].(key := key)); more <= Registered(more, key, segments[1..])
    ensures Keyed(segments, key)[1..] == Keyed(segments[1..], key)
    ensures var s, r := segments[0].(key := key), Registered(list, key, segments);
            var more := Added(list, s);
            && list <= more <= r && r == Registered(more, key, segments[1..])
            && r[|list|..] == (if New(list, segments, 0) then [Keyed(segments, key)[0]] else []) + r[|more|..]
  {
    hide Lists;
    var s, r := segments[0].(key := key), Registered(list, key, segments);
    assert Keyed(segments, key)[0] == s;
    if New(list, segments, 0) {
      assert r[|list|] == s;
      assert r[|list|..] == [s] + r[|list| + 1..];
    } else {
      assert [] + r[|list|..] == r[|list|..];
    }
  }

  lemma NewBehind(list: seq<HlsSegment>, segments: seq<HlsSegment>, s: HlsSegment, i: nat)
    requires segments != [] && s.url == segments[0].url
    ensures New(Added(list, s), segments[1..], i) <==> New(list, segments, i + 1)
  {
    if i + 1 < |segments| {
      AddedLists(list, s, segments[i + 1].url);
      assert segments[1..][i] == segments[i + 1];
      hide Lists, Added;
      if New(Added(list, s), segments[1..], i) {
        forall j | 0 <= j < i + 1 ensures segments[j].url != segments[i + 1].url {
          if j > 0 {
            assert segments[1..][j - 1] == segments[j];
          }
        }
      }
      if New(list, segments, i + 1) {
        forall j | 0 <= j < i ensures segments[1..][j].url != segments[1..][i].url {
          assert segments[1..][j] == segments[j + 1];
        }
      }
    }
  }

  lemma {:induction false} ApartFromRegistered(other: seq<HlsSegment>, list: seq<HlsSegment>, key: string,
                                               segments: seq<HlsSegment>)
    requires KeyedAndDistinct(list, key) && Apart(other, list)
    ensures Apart(other, Registered(list, key, segments)) <==>
            forall i | 0 <= i < |segments| :: !Lists(other, segments[i].url)
  {
    hide Registered, Apart, KeyedAndDistinct, Lists;
    RegisterIsOrderedDedupe(list, key, segments);
    ApartIsListing(other, list);
    ApartIsListing(other, Registered(list, key, segments));
  }

  lemma ApartSym(a: seq<HlsSegment>, b: seq<HlsSegment>)
    ensures Apart(a, b) <==> Apart(b, a)
  {
  }

  ghost function ListOf(p: Playlists, key: string): seq<HlsSegment> { if key in p then p[key] else [] }

  lemma OwnIsKeyed(p: Playlists, key: string)
    requires WellFormed(p)
    ensures KeyedAndDistinct(ListOf(p, key), key)
  {
  }

  lemma ApartFromOwn(p: Playlists, k: string, key: string)
    requires WellFormed(p) && k in p && k != key
    ensures Apart(p[k], ListOf(p, key))
  {
  }

  /** Deduplication is per playlist only: a registration keeps URLs distinct over the whole
      registry exactly when no new URL is listed under another key. */
  lemma RegisterKeepsWellFormedExactly(p: Playlists, key: string, segments: seq<HlsSegment>)
    requires WellFormed(p)
    ensures WellFormed(p[key := Registered(ListOf(p, key), key, segments)]) <==>
            forall k, i | k in p && k != key && 0 <= i < |segments| :: !Lists(p[k], segments[i].url)
  {
    hide Registered, Apart, KeyedAndDistinct, Lists;
    var list := ListOf(p, key);
    var r := Registered(list, key, segments);
    var q: Playlists := p[key := r];
    OwnIsKeyed(p, key);
    RegisterIsOrderedDedupe(list, key, segments);
    forall k | k in p && k != key
      ensures Apart(p[k], r) <==> forall i | 0 <= i < |segments| :: !Lists(p[k], segments[i].url)
      ensures Apart(p[k], r) <==> Apart(r, p[k])
    {
      ApartFromOwn(p, k, key);
      ApartFromRegistered(p[k], list, key, segments);
      ApartSym(p[k], r);
    }
    if forall k, i | k in p && k != key && 0 <= i < |segments| :: !Lists(p[k], segments[i].url) {
      assert WellFormed(q);
    } else {
      var k, i :| k in p && k != key && 0 <= i < |segments| && Lists(p[k], segments[i].url);
      assert !Apart(q[k], q[key]);
    }
  }

  // ---------------------------------------------------------------------------------------
  // The object

  class HlsRegistry {
    var playlists: Playlists
    var latest: map<string, string>

    constructor ()
      ensures State() == Registry(map[], map[])
    {
      playlists, latest := map[], map[];
    }

    function State(): Registry
      reads this
    {
      Registry(playlists, latest)
    }

    function SegmentsForKey(key: string): seq<HlsSegment>
      reads this
    {
      if key in playlists then playlists[key] else []
    }

    method SetLatest(key: string, url: string)
      modifies `latest
      ensures latest == old(latest)[key := url]
    {
      latest := latest[key := url];
    }

    method AddSegment(segment: HlsSegment)
      modifies `playlists
      ensures playlists == old(playlists)[segment.key := Added(old(SegmentsForKey(segment.key)), segment)]
    {
      var list := SegmentsForKey(segment.key);
      if !Lists(list, segment.url) {
        list := list + [segment];
      }
      playlists := playlists[segment.key := list];
    }

    method RegisterSegments(key: string, segments: seq<HlsSegment>)
      modifies `playlists
      ensures segments == [] ==> playlists == old(playlists)
      ensures segments != [] ==>
                playlists == old(playlists)[key := Registered(old(SegmentsForKey(key)), key, segments)]
    {
      hide Added;
      var i := 0;
      while i < |segments|
        invariant 0 <= i <= |segments|
        invariant Registered(SegmentsForKey(key), key, segments[i..]) ==
                  Registered(old(SegmentsForKey(key)), key, segments)
        invariant playlists == if i == 0 then old(playlists) else old(playlists)[key := SegmentsForKey(key)]
      {
        AddSegment(if segments[i].key != key then segments[i].(key := key) else segments[i]);
        i := i + 1;
      }
    }

    /** The hash map is searched in no particular order. */
    method FindByUrl(url: string) returns (found: Option<HlsSegment>)
      ensures Finds(playlists, url, found)
    {
      var keys := playlists.Keys;
      while keys != {}
        invariant keys <= playlists.Keys
        invariant forall k | k in playlists && k !in keys :: !Lists(playlists[k], url)
        decreases |keys|
      {
        var k :| k in keys;
        var i := Position(playlists[k], url);
        if i < |playlists[k]| {
          assert At(playlists, k, i);
          return Some(playlists[k][i]);
        }
        keys := keys - {k};
      }
      return None;
    }

    method UpdateStatus(url: string, status: DownloadStatus)
      modifies `playlists
      ensures Marks(old(playlists), playlists, url, status)
    {
      var keys := playlists.Keys;
      while keys != {}
        invariant playlists == old(playlists) && keys <= playlists.Keys
        invariant forall k | k in playlists && k !in keys :: !Lists(playlists[k], url)
        decreases |keys|
      {
        var k :| k in keys;
        if Lists(playlists[k], url) {
          playlists := playlists[k := Marked(playlists[k], url, status)];
          return;
        }
        keys := keys - {k};
      }
    }

    function DownloadingCount(key: string): nat
      reads this
    {
      Downloads(SegmentsForKey(key))
    }

    function FindIdle(key: string): Option<HlsSegment>
      reads this
    {
      FirstIdle(SegmentsForKey(key))
    }

    method EvictPlaylist(key: string)
      modifies this
      ensures State() == Evicted(old(State()), key)
      ensures playlists == old(playlists) - {key} && latest == old(latest) - {key}
    {
      playlists := playlists - {key};
      latest := latest - {key};
    }

    /** Past eight playlists there is always one under another key than the kept one. */
    method EvictionCandidate(keep: string) returns (key: Option<string>)
      ensures key.None? <==> |playlists| <= 8
      ensures key.Some? ==> key.value in playlists && key.value != keep
    {
      if |playlists| <= MAX_HLS_PLAYLIST_KEYS {
        return None;
      }
      var others := playlists.Keys - {keep};
      assert others != {} by {
        if others == {} {
          assert playlists.Keys <= {keep};
          SmallerSet(playlists.Keys, {keep});
        }
      }
      var k :| k in others;
      return Some(k);
    }

    /** Mark the playback position and evict a playlist when there are too many. */
    method PrefetchBegin(segment: HlsSegment) returns (evicted: seq<HlsSegment>)
      modifies this
      ensures Begins(old(State()), segment, State())
      ensures |old(playlists)| <= 8 ==> evicted == []
      ensures |old(playlists)| > 8 ==>
                exists k :: k in old(playlists) && playlists == old(playlists) - {k} && evicted == old(playlists)[k]
    {
      SetLatest(segment.key, segment.url);
      var candidate := EvictionCandidate(segment.key);
      if candidate.None? {
        return [];
      }
      evicted := SegmentsForKey(candidate.value);
      EvictPlaylist(candidate.value);
    }

    method ActiveSegment(hint: HlsSegment) returns (found: Option<HlsSegment>)
      ensures Finds(playlists, ActiveUrl(State(), hint), found)
      ensures var url := if hint.key in latest then latest[hint.key] else hint.url;
              if found.Some? then
                && found.value.url == url
                && exists k, i :: At(playlists, k, i) && playlists[k][i] == found.value
              else forall k, i | At(playlists, k, i) :: playlists[k][i].url != url
    {
      var url := if hint.key in latest then latest[hint.key] else hint.url;
      found := FindByUrl(url);
    }

    method NextPrefetchSegment(key: string) returns (found: Option<HlsSegment>)
      ensures NextPrefetch(State(), key, found)
    {
      if key !in latest {
        return None;
      }
      var current := FindByUrl(latest[key]);
      found := if current.None? then None else NextAfter(playlists, current.value);
    }
  }
}
