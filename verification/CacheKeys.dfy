/** Canonical cache keys: the URL text that is hashed into a cache entry. */
module CacheKeys {
  import opened Wrappers
  import opened Text
  import opened Decimal

  type Pair = (string, string)
  type Params = map<string, string>

  /** `prefix` is scheme and authority. */
  datatype Url = Url(prefix: string, path: string, query: Option<string>)

  /** `authority` stands for the prefix with the custom cache host, when the headers carry one. */
  datatype KeyTask = KeyTask(uri: Url, authority: Option<string>, start: int, end: Option<int>)

  const START_RANGE := "startRange"
  const END_RANGE := "endRange"

  // ---------------------------------------------------------------------------------------
  // Query text

  function PairOf(piece: string): Pair {
    var r := SplitOnce(piece, '=');
    if r.Some? then r.value else (piece, "")
  }

  /** query_pairs on text without escapes: pieces between `&`, empty ones skipped. */
  function Pairs(text: string): seq<Pair>
    decreases |text|
  {
    var r := SplitOnce(text, '&');
    var piece := if r.Some? then r.value.0 else text;
    var here := if piece == "" then [] else [PairOf(piece)];
    here + if r.Some? then Pairs(r.value.1) else []
  }

  function QueryPairs(query: Option<string>): seq<Pair> {
    if query.Some? then Pairs(query.value) else []
  }

  function Piece(p: Pair): (s: string) ensures s != "" { p.0 + "=" + p.1 }

  function Join(pairs: seq<Pair>): string {
    if pairs == [] then "" else if |pairs| == 1 then Piece(pairs[0]) else Piece(pairs[0]) + "&" + Join(pairs[1..])
  }

  function QueryText(pairs: seq<Pair>): Option<string> {
    if pairs == [] then None else Some(Join(pairs))
  }

  /** Later pairs win, as when collecting into a hash map. */
  function QueryMap(pairs: seq<Pair>): Params {
    if pairs == [] then map[]
    else
      var (k, v) := pairs[|pairs| - 1];
      QueryMap(pairs[..|pairs| - 1])[k := v]
  }

  // ---------------------------------------------------------------------------------------
  // Sorted keys

  predicate Le(a: string, b: string) {
    a == [] || (b != [] && (a[0] < b[0] || (a[0] == b[0] && Le(a[1..], b[1..]))))
  }

  lemma {:induction false} LeTotal(a: string, b: string)
    ensures Le(a, b) || Le(b, a)
    ensures Le(a, b) && Le(b, a) ==> a == b
  {
    if a != [] && b != [] && a[0] == b[0] {
      LeTotal(a[1..], b[1..]);
      assert a == [a[0]] + a[1..] && b == [b[0]] + b[1..];
    }
  }

  lemma {:induction false} LeTransitive(a: string, b: string, c: string)
    requires Le(a, b) && Le(b, c)
    ensures Le(a, c)
  {
    if a != [] && a[0] == b[0] == c[0] {
      LeTransitive(a[1..], b[1..], c[1..]);
    }
  }

  /** The order is that of code points: at the first difference the smaller one comes first, and a text comes
      before its continuations. */
  lemma {:induction false} LeExactly(a: string, b: string)
    ensures Le(a, b) <==> a <= b || exists i :: DiffersAt(a, b, i)
  {
    if a != [] && b != [] && a[0] == b[0] {
      LeExactly(a[1..], b[1..]);
      if i :| DiffersAt(a[1..], b[1..], i) {
        assert a[..i + 1] == [a[0]] + a[1..][..i] && b[..i + 1] == [b[0]] + b[1..][..i];
        assert DiffersAt(a, b, i + 1);
      }
      if i :| DiffersAt(a, b, i) {
        assert i > 0 && a[1..][..i - 1] == a[..i][1..] && b[1..][..i - 1] == b[..i][1..];
        assert DiffersAt(a[1..], b[1..], i - 1);
      }
    } else if a != [] && b != [] {
      assert a[..0] == b[..0];
      assert DiffersAt(a, b, 0) <==> a[0] < b[0];
      forall i | DiffersAt(a, b, i) ensures i == 0 {
        FirstSame(a, b, i);
      }
    }
  }

  lemma FirstSame(a: string, b: string, i: int)
    requires DiffersAt(a, b, i)
    ensures i > 0 ==> a[0] == b[0]
  {
    if i > 0 {
      assert a[..i][0] == a[0] && b[..i][0] == b[0];
    }
  }

  predicate DiffersAt(a: string, b: string, i: int) {
    0 <= i < |a| && i < |b| && a[..i] == b[..i] && a[i] < b[i]
  }

  predicate IsLeast(k: string, keys: set<string>) { k in keys && forall j | j in keys :: Le(k, j) }

  lemma {:induction false} LeastExists(keys: set<string>)
    requires keys != {}
    ensures exists k :: IsLeast(k, keys)
  {
    var k :| k in keys;
    LeTotal(k, k);
    if keys != {k} {
      LeastExists(keys - {k});
      var m :| IsLeast(m, keys - {k});
      LeTotal(k, m);
      if Le(k, m) {
        forall j | j in keys ensures Le(k, j) {
          if j != k {
            LeTransitive(k, m, j);
          }
        }
        assert IsLeast(k, keys);
      } else {
        assert IsLeast(m, keys);
      }
    } else {
      assert IsLeast(k, keys);
    }
  }

  lemma LeastOfFewer(k: string, keys: set<string>, fewer: set<string>)
    requires IsLeast(k, keys) && fewer <= keys && k in fewer
    ensures IsLeast(k, fewer)
  {
  }

  lemma LeastUnique(a: string, b: string, keys: set<string>)
    requires IsLeast(a, keys) && IsLeast(b, keys)
    ensures a == b
  {
    LeTotal(a, b);
  }

  ghost function Least(keys: set<string>): (k: string)
    requires keys != {}
    ensures k in keys && IsLeast(k, keys)
  {
    LeastExists(keys);
    var k :| IsLeast(k, keys);
    k
  }

  /** The keys in ascending order, each once. */
  ghost function SortedKeys(keys: set<string>): (s: seq<string>)
    ensures forall k :: k in s <==> k in keys
  {
    if keys == {} then [] else [Least(keys)] + SortedKeys(keys - {Least(keys)})
  }

  ghost predicate Ascending(s: seq<string>) {
    forall i, j | 0 <= i < j < |s| :: Le(s[i], s[j]) && s[i] != s[j]
  }

  lemma {:induction false} SortedKeysAscend(keys: set<string>)
    ensures Ascending(SortedKeys(keys))
  {
    if keys != {} {
      SortedKeysAscend(keys - {Least(keys)});
      LeastFirst(keys, SortedKeys(keys - {Least(keys)}));
      hide Ascending, Least;
    }
  }

  lemma LeastFirst(keys: set<string>, rest: seq<string>)
    requires keys != {} && Ascending(rest) && forall k | k in rest :: k in keys - {Least(keys)}
    ensures Ascending([Least(keys)] + rest)
  {
    var least := Least(keys);
    assert IsLeast(least, keys);
    hide Le, Least;
    forall j | 0 <= j < |rest| ensures Le(least, rest[j]) && least != rest[j] {
      assert rest[j] in rest;
    }
  }

  ghost function Listed(keys: seq<string>, m: Params): seq<Pair>
    requires forall k | k in keys :: k in m
  {
    seq(|keys|, i requires 0 <= i < |keys| => (keys[i], m[keys[i]]))
  }

  ghost function SortedPairs(m: Params): seq<Pair> { Listed(SortedKeys(m.Keys), m) }

  // ---------------------------------------------------------------------------------------
  // compute_entry

  /** UrlMatcherConfigurable; with nothing to ignore it is UrlMatcherDefault. */
  datatype Matcher = Matcher(ignored: set<string>)
  {
    predicate Keeps(k: string) {
      if ignored == {} then k == START_RANGE || k == END_RANGE else Lower(k) !in ignored
    }
  }

  function Filtered(pairs: seq<Pair>, matcher: Matcher): seq<Pair> {
    if pairs == [] then []
    else (if matcher.Keeps(pairs[0].0) then [pairs[0]] else []) + Filtered(pairs[1..], matcher)
  }

  /** match_cache_key, on the query. */
  function MatchedQuery(query: Option<string>, matcher: Matcher): Option<string> {
    QueryText(Filtered(QueryPairs(query), matcher))
  }

  /** The range of a task as parameters: its start gives way to the URL's own, its end does not. */
  function WithRange(own: Params, start: int, end: Option<int>): Params {
    var m := if start > 0 && START_RANGE !in own then own[START_RANGE := ToText(start)] else own;
    if end.None? then m
    else (if START_RANGE !in m then m[START_RANGE := "0"] else m)[END_RANGE := ToText(end.value)]
  }

  ghost function CacheQuery(query: Option<string>, start: int, end: Option<int>, matcher: Matcher): Option<string> {
    MatchedQuery(QueryText(SortedPairs(WithRange(QueryMap(QueryPairs(query)), start, end))), matcher)
  }

  ghost function CacheUri(t: KeyTask, matcher: Matcher): Url {
    Url(if t.authority.Some? then t.authority.value else t.uri.prefix, t.uri.path,
        CacheQuery(t.uri.query, t.start, t.end, matcher))
  }

  /** The sort of compute_entry, as a selection of least keys. */
  method SortKeys(keys: set<string>) returns (sorted: seq<string>)
    ensures sorted == SortedKeys(keys)
  {
    hide Le, IsLeast;
    var rest := keys;
    sorted := [];
    while rest != {}
      invariant sorted + SortedKeys(rest) == SortedKeys(keys)
      decreases |rest|
    {
      LeastExists(rest);
      var k :| k in rest && IsLeast(k, rest);
      LeastUnique(k, Least(rest), rest);
      assert sorted + [k] + SortedKeys(rest - {k}) == sorted + SortedKeys(rest);
      sorted, rest := sorted + [k], rest - {k};
    }
  }

  /** compute_entry up to the hash. */
  method ComputeCacheUri(t: KeyTask, matcher: Matcher) returns (uri: Url)
    ensures uri == CacheUri(t, matcher)
  {
    hide Matcher.Keeps, Filtered, Join, SortedKeys;
    uri := t.uri;
    if t.authority.Some? {
      uri := uri.(prefix := t.authority.value);
    }
    var query := QueryMap(QueryPairs(uri.query));
    if t.start > 0 && START_RANGE !in query {
      query := query[START_RANGE := ToText(t.start)];
    }
    if t.end.Some? {
      if START_RANGE !in query {
        query := query[START_RANGE := "0"];
      }
      query := query[END_RANGE := ToText(t.end.value)];
    }
    var keys := SortKeys(query.Keys);
    var pairs := [];
    for i := 0 to |keys|
      invariant pairs == SortedPairs(query)[..i]
    {
      pairs := pairs + [(keys[i], query[keys[i]])];
    }
    assert pairs == SortedPairs(query);
    uri := uri.(query := MatchedQuery(QueryText(pairs), matcher));
  }

  // ---------------------------------------------------------------------------------------
  // Parsing what was joined

  predicate Clean(p: Pair) { '&' !in p.0 && '=' !in p.0 && '&' !in p.1 }

  predicate AllClean(pairs: seq<Pair>) { forall i | 0 <= i < |pairs| :: Clean(pairs[i]) }

  lemma PairOfPiece(p: Pair)
    requires Clean(p)
    ensures PairOf(Piece(p)) == p && '&' !in Piece(p)
  {
    SplitAtFirst(p.0, '=', p.1);
    assert Piece(p) == p.0 + ['='] + p.1;
  }

  lemma {:induction false} PairsOfJoin(pairs: seq<Pair>)
    requires AllClean(pairs)
    ensures Pairs(Join(pairs)) == pairs
  {
    if pairs != [] {
      PairOfPiece(pairs[0]);
      if |pairs| == 1 {
        assert SplitOnce(Piece(pairs[0]), '&').None?;
      } else {
        PairsOfJoin(pairs[1..]);
        SplitAtFirst(Piece(pairs[0]), '&', Join(pairs[1..]));
        assert Join(pairs) == Piece(pairs[0]) + ['&'] + Join(pairs[1..]);
      }
    }
  }

  lemma {:induction false} PairsAreClean(text: string)
    ensures AllClean(Pairs(text))
    decreases |text|
  {
    var r := SplitOnce(text, '&');
    var piece := if r.Some? then r.value.0 else text;
    assert '&' !in piece;
    var s := SplitOnce(piece, '=');
    if s.Some? {
      assert piece == s.value.0 + ['='] + s.value.1;
      assert forall c | c in s.value.0 || c in s.value.1 :: c in piece;
    }
    assert Clean(PairOf(piece));
    if r.Some? {
      PairsAreClean(r.value.1);
    }
  }

  /** Joining clean pairs and parsing the query back is the identity. */
  lemma QueryRoundTrip(pairs: seq<Pair>)
    requires AllClean(pairs)
    ensures QueryPairs(QueryText(pairs)) == pairs
  {
    PairsOfJoin(pairs);
  }

  ghost predicate CleanMap(m: Params) { forall k | k in m :: Clean((k, m[k])) }

  lemma {:induction false} QueryMapIsClean(pairs: seq<Pair>)
    requires AllClean(pairs)
    ensures CleanMap(QueryMap(pairs))
  {
    if pairs != [] {
      QueryMapIsClean(pairs[..|pairs| - 1]);
      assert Clean(pairs[|pairs| - 1]);
    }
  }

  lemma WithRangeIsClean(own: Params, start: int, end: Option<int>)
    requires CleanMap(own)
    ensures CleanMap(WithRange(own, start, end))
  {
    assert '&' !in ToText(start);
    assert end.Some? ==> '&' !in ToText(end.value);
    assert '=' !in START_RANGE && '&' !in START_RANGE && '=' !in END_RANGE && '&' !in END_RANGE;
    assert '&' !in "0";
  }

  // ---------------------------------------------------------------------------------------
  // The closed form

  ghost function Kept(m: Params, matcher: Matcher): Params {
    map k | k in m && matcher.Keeps(k) :: m[k]
  }

  /** What a key is made of: the parameters of URL and range that the matcher keeps. */
  ghost function Effective(query: Option<string>, start: int, end: Option<int>, matcher: Matcher): Params {
    Kept(WithRange(QueryMap(QueryPairs(query)), start, end), matcher)
  }

  ghost function KeptKeys(keys: seq<string>, matcher: Matcher): seq<string> {
    if keys == [] then []
    else (if matcher.Keeps(keys[0]) then [keys[0]] else []) + KeptKeys(keys[1..], matcher)
  }

  lemma {:induction false} KeptKeysSorted(keys: set<string>, matcher: Matcher)
    ensures KeptKeys(SortedKeys(keys), matcher) == SortedKeys(set k | k in keys && matcher.Keeps(k))
  {
    hide Le, IsLeast, Matcher.Keeps;
    var kept := set k | k in keys && matcher.Keeps(k);
    if keys != {} {
      var m := Least(keys);
      var fewer := set k | k in keys - {m} && matcher.Keeps(k);
      KeptKeysSorted(keys - {m}, matcher);
      assert SortedKeys(keys)[1..] == SortedKeys(keys - {m});
      if matcher.Keeps(m) {
        LeastOfFewer(m, keys, kept);
        LeastUnique(m, Least(kept), kept);
        assert kept - {m} == fewer;
        assert SortedKeys(kept) == [m] + SortedKeys(fewer);
      } else {
        assert kept == fewer;
      }
    }
  }

  lemma {:induction false} FilteredListed(keys: seq<string>, m: Params, matcher: Matcher)
    requires forall k | k in keys :: k in m
    ensures forall k | k in KeptKeys(keys, matcher) :: k in Kept(m, matcher)
    ensures Filtered(Listed(keys, m), matcher) == Listed(KeptKeys(keys, matcher), Kept(m, matcher))
  {
    if keys != [] {
      FilteredListed(keys[1..], m, matcher);
      assert Listed(keys, m)[1..] == Listed(keys[1..], m);
      assert keys[0] in keys;
    }
  }

  lemma FilteredSorted(m: Params, matcher: Matcher)
    ensures Filtered(SortedPairs(m), matcher) == SortedPairs(Kept(m, matcher))
  {
    KeptKeysSorted(m.Keys, matcher);
    FilteredListed(SortedKeys(m.Keys), m, matcher);
    assert Kept(m, matcher).Keys == set k | k in m.Keys && matcher.Keeps(k);
  }

  lemma SortedPairsClean(m: Params)
    requires CleanMap(m)
    ensures AllClean(SortedPairs(m))
  {
    forall i | 0 <= i < |SortedPairs(m)| ensures Clean(SortedPairs(m)[i]) {
      assert SortedKeys(m.Keys)[i] in SortedKeys(m.Keys);
    }
  }

  lemma EffectiveIsClean(query: Option<string>, start: int, end: Option<int>, matcher: Matcher)
    ensures CleanMap(WithRange(QueryMap(QueryPairs(query)), start, end))
    ensures CleanMap(Effective(query, start, end, matcher))
  {
    if query.Some? {
      PairsAreClean(query.value);
    }
    QueryMapIsClean(QueryPairs(query));
    WithRangeIsClean(QueryMap(QueryPairs(query)), start, end);
  }

  /** Rendering, parsing again and filtering comes to rendering the kept parameters. */
  lemma {:induction false} CacheQueryIs(query: Option<string>, start: int, end: Option<int>, matcher: Matcher)
    ensures CacheQuery(query, start, end, matcher) == QueryText(SortedPairs(Effective(query, start, end, matcher)))
  {
    hide WithRange, SortedPairs, Filtered, QueryText;
    var m := WithRange(QueryMap(QueryPairs(query)), start, end);
    EffectiveIsClean(query, start, end, matcher);
    SortedPairsClean(m);
    QueryRoundTrip(SortedPairs(m));
    FilteredSorted(m, matcher);
  }

  ghost predicate DistinctKeys(pairs: seq<Pair>) {
    forall i, j | 0 <= i < j < |pairs| :: pairs[i].0 != pairs[j].0
  }

  lemma {:induction false} QueryMapIff(pairs: seq<Pair>, k: string, v: string)
    requires DistinctKeys(pairs)
    ensures (k in QueryMap(pairs) && QueryMap(pairs)[k] == v) <==> (k, v) in pairs
    ensures k in QueryMap(pairs) <==> exists i :: 0 <= i < |pairs| && pairs[i].0 == k
  {
    if pairs != [] {
      var n := |pairs| - 1;
      QueryMapIff(pairs[..n], k, v);
      var front, last := pairs[..n], pairs[n];
      assert pairs == front + [last];
      assert (k, v) in pairs <==> (k, v) in front || (k, v) == last;
      assert forall i | 0 <= i < n :: front[i] == pairs[i] && front[i].0 != last.0;
      assert QueryMap(pairs) == QueryMap(front)[last.0 := last.1];
    }
  }

  lemma MapOfSortedPairs(m: Params)
    ensures QueryMap(SortedPairs(m)) == m
  {
    hide SortedKeys, QueryMap, Le;
    var pairs := SortedPairs(m);
    SortedKeysAscend(m.Keys);
    assert DistinctKeys(pairs);
    forall k ensures k in QueryMap(pairs) <==> k in m
             ensures k in m ==> QueryMap(pairs)[k] == m[k] {
      if k in m {
        var i :| 0 <= i < |SortedKeys(m.Keys)| && SortedKeys(m.Keys)[i] == k;
        assert pairs[i] == (k, m[k]);
        QueryMapIff(pairs, k, m[k]);
      } else {
        QueryMapIff(pairs, k, "");
        var keys := SortedKeys(m.Keys);
        assert forall i | 0 <= i < |pairs| :: pairs[i].0 == keys[i] && keys[i] in keys;
      }
    }
  }

  /** Two tasks of one URL path share their key text exactly when the parameters that count, the
      URL's and the range's, are the same map: order never matters, and nothing that is kept is
      lost in the text. */
  lemma {:induction false} SameKeyExactly(q: Option<string>, s: int, e: Option<int>, q': Option<string>,
                                          s': int, e': Option<int>,
                       matcher: Matcher)
    ensures CacheQuery(q, s, e, matcher) == CacheQuery(q', s', e', matcher) <==>
            Effective(q, s, e, matcher) == Effective(q', s', e', matcher)
  {
    hide Effective, SortedPairs, CacheQuery, QueryText;
    var m, n := Effective(q, s, e, matcher), Effective(q', s', e', matcher);
    CacheQueryIs(q, s, e, matcher);
    CacheQueryIs(q', s', e', matcher);
    EffectiveIsClean(q, s, e, matcher);
    EffectiveIsClean(q', s', e', matcher);
    SortedPairsClean(m);
    SortedPairsClean(n);
    QueryRoundTrip(SortedPairs(m));
    QueryRoundTrip(SortedPairs(n));
    MapOfSortedPairs(m);
    MapOfSortedPairs(n);
  }

  // ---------------------------------------------------------------------------------------
  // Which parameters count

  function PieceRead(piece: string): seq<Pair> { if piece == "" then [] else [PairOf(piece)] }

  lemma PairsOfFirst(piece: string, rest: string)
    requires '&' !in piece
    ensures Pairs(piece) == PieceRead(piece) && Pairs(piece + ['&'] + rest) == PieceRead(piece) + Pairs(rest)
  {
    hide PairOf;
    SplitAtFirst(piece, '&', rest);
    assert SplitOnce(piece, '&').None?;
    hide SplitOnce;
    assert Pairs(piece) == PieceRead(piece) + [];
  }

  /** Parsing takes the query apart at every `&`. */
  lemma {:induction false} PairsOfParts(a: string, b: string)
    ensures Pairs(a + ['&'] + b) == Pairs(a) + Pairs(b)
    decreases |a|
  {
    var r := SplitOnce(a, '&');
    hide SplitOnce, Pairs, PieceRead;
    if r.None? {
      PairsOfFirst(a, b);
    } else {
      var (x, y) := r.value;
      assert a == x + ['&'] + y && a + ['&'] + b == x + ['&'] + (y + ['&'] + b);
      PairsOfFirst(x, y);
      PairsOfFirst(x, y + ['&'] + b);
      PairsOfParts(y, b);
      assert PieceRead(x) + (Pairs(y) + Pairs(b)) == (PieceRead(x) + Pairs(y)) + Pairs(b);
    }
  }

  /** One piece: nothing when it is empty, a name without a value, or a name and a value that may itself
      hold a `=`. */
  lemma {:induction false} PairsOfPiece(name: string, value: string)
    requires '&' !in name && '=' !in name && '&' !in value
    ensures Pairs(name) == if name == "" then [] else [(name, "")]
    ensures Pairs(name + ['='] + value) == [(name, value)]
  {
    assert SplitOnce(name, '=').None?;
    SplitAtFirst(name, '=', value);
    hide SplitOnce, Pairs;
    PairsOfFirst(name, "");
    PairsOfFirst(name + ['='] + value, "");
  }

  /** The value of the last pair of that name. */
  function LastValue(pairs: seq<Pair>, name: string): Option<string> {
    if pairs == [] then None
    else if pairs[|pairs| - 1].0 == name then Some(pairs[|pairs| - 1].1)
    else LastValue(pairs[..|pairs| - 1], name)
  }

  lemma {:induction false} QueryMapHasLast(pairs: seq<Pair>, name: string)
    ensures LastValue(pairs, name) == if name in QueryMap(pairs) then Some(QueryMap(pairs)[name]) else None
  {
    if pairs != [] {
      QueryMapHasLast(pairs[..|pairs| - 1], name);
    }
  }

  /** A parameter of a task: of its URL, or of its range, whose end replaces the URL's own and whose start
      does not. */
  function Parameter(t: KeyTask, name: string): Option<string> {
    var own := LastValue(QueryPairs(t.uri.query), name);
    if name == "endRange" && t.end.Some? then Some(ToText(t.end.value))
    else if name == "startRange" && own.None? && (t.start > 0 || t.end.Some?) then Some(ToText(Natural(t.start)))
    else own
  }

  function Natural(n: int): nat { if n > 0 then n else 0 }

  lemma WithRangeIs(t: KeyTask, name: string)
    ensures var m := WithRange(QueryMap(QueryPairs(t.uri.query)), t.start, t.end);
            Parameter(t, name) == if name in m then Some(m[name]) else None
  {
    assert ToText(0) == "0";
    hide ToText;
    QueryMapHasLast(QueryPairs(t.uri.query), name);
    assert START_RANGE != END_RANGE by { assert START_RANGE[0] != END_RANGE[0]; }
  }

  /** Same keys, in terms of the configuration: the same authority, the same path, and the same values of
      the parameters that count.  Those are startRange and endRange when no names are to be ignored, and
      otherwise all but the ones whose lower-cased name is to be ignored. */
  lemma {:induction false} SameUriExactly(t: KeyTask, u: KeyTask, matcher: Matcher)
    ensures CacheUri(t, matcher) == CacheUri(u, matcher) <==>
            && (if t.authority.Some? then t.authority.value else t.uri.prefix) ==
               (if u.authority.Some? then u.authority.value else u.uri.prefix)
            && t.uri.path == u.uri.path
            && (matcher.ignored == {} ==>
                  && Parameter(t, "startRange") == Parameter(u, "startRange")
                  && Parameter(t, "endRange") == Parameter(u, "endRange"))
            && (matcher.ignored != {} ==>
                  forall name | Lower(name) !in matcher.ignored :: Parameter(t, name) == Parameter(u, name))
  {
    SameKeyExactly(t.uri.query, t.start, t.end, u.uri.query, u.start, u.end, matcher);
    var m, n := Effective(t.uri.query, t.start, t.end, matcher), Effective(u.uri.query, u.start, u.end, matcher);
    forall name
      ensures name in m <==> Parameter(t, name).Some? && matcher.Keeps(name)
      ensures name in n <==> Parameter(u, name).Some? && matcher.Keeps(name)
      ensures name in m ==> Parameter(t, name) == Some(m[name])
      ensures name in n ==> Parameter(u, name) == Some(n[name])
    {
      WithRangeIs(t, name);
      WithRangeIs(u, name);
    }
    hide CacheQuery, Effective, Parameter;
    SameMapExactly(t, u, matcher, m, n);
  }

  lemma SameMapExactly(t: KeyTask, u: KeyTask, matcher: Matcher, m: Params, n: Params)
    requires forall name :: name in m <==> Parameter(t, name).Some? && matcher.Keeps(name)
    requires forall name :: name in n <==> Parameter(u, name).Some? && matcher.Keeps(name)
    requires forall name | name in m :: Parameter(t, name) == Some(m[name])
    requires forall name | name in n :: Parameter(u, name) == Some(n[name])
    ensures m == n <==>
            && (matcher.ignored == {} ==>
                  && Parameter(t, "startRange") == Parameter(u, "startRange")
                  && Parameter(t, "endRange") == Parameter(u, "endRange"))
            && (matcher.ignored != {} ==>
                  forall name | Lower(name) !in matcher.ignored :: Parameter(t, name) == Parameter(u, name))
  {
    hide Parameter, Lower;
    assert m == n <==> forall name | matcher.Keeps(name) :: Parameter(t, name) == Parameter(u, name);
  }

  // ---------------------------------------------------------------------------------------
  // What the closed form gives

  /** Reordering query pairs with distinct keys changes nothing. */
  lemma {:induction false} OrderDoesNotMatter(pairs: seq<Pair>, shuffled: seq<Pair>, start: int,
                                              end: Option<int>, matcher: Matcher)
    requires multiset(pairs) == multiset(shuffled) && DistinctKeys(pairs) && DistinctKeys(shuffled)
    requires AllClean(pairs)
    ensures CacheQuery(QueryText(pairs), start, end, matcher) == CacheQuery(QueryText(shuffled), start, end, matcher)
  {
    hide CacheQuery, QueryText, QueryPairs;
    forall p ensures p in pairs <==> p in shuffled {
      assert p in multiset(pairs) <==> p in multiset(shuffled);
    }
    QueryRoundTrip(pairs);
    forall i | 0 <= i < |shuffled| ensures Clean(shuffled[i]) {
      assert shuffled[i] in pairs;
    }
    QueryRoundTrip(shuffled);
    SameQueryMap(pairs, shuffled);
    SameKeyExactly(QueryText(pairs), start, end, QueryText(shuffled), start, end, matcher);
  }

  lemma SameQueryMap(pairs: seq<Pair>, shuffled: seq<Pair>)
    requires DistinctKeys(pairs) && DistinctKeys(shuffled)
    requires forall p :: p in pairs <==> p in shuffled
    ensures QueryMap(pairs) == QueryMap(shuffled)
  {
    hide DistinctKeys, QueryMap;
    var m, n := QueryMap(pairs), QueryMap(shuffled);
    forall k ensures k in m <==> k in n
             ensures k in m ==> m[k] == n[k] {
      if k in m {
        QueryMapIff(pairs, k, m[k]);
        QueryMapIff(shuffled, k, m[k]);
      }
      if k in n {
        QueryMapIff(pairs, k, n[k]);
        QueryMapIff(shuffled, k, n[k]);
      }
    }
    assert m == n;
  }

  /** A parameter to be ignored, or any but the range when none is named, may have any value, or be absent. */
  lemma {:induction false} IgnoredDoesNotMatter(q: Option<string>, q': Option<string>, start: int, end: Option<int>,
                                                matcher: Matcher)
    requires forall name |
               if matcher.ignored == {} then name == "startRange" || name == "endRange"
               else Lower(name) !in matcher.ignored ::
               LastValue(QueryPairs(q), name) == LastValue(QueryPairs(q'), name)
    ensures CacheQuery(q, start, end, matcher) == CacheQuery(q', start, end, matcher)
  {
    hide CacheQuery, LastValue, QueryPairs, ToText;
    var t, u := KeyTask(Url("", "", q), None, start, end), KeyTask(Url("", "", q'), None, start, end);
    SameUriExactly(t, u, matcher);
    assert CacheUri(t, matcher).query == CacheUri(u, matcher).query;
  }

  predicate ValidRange(start: int, end: Option<int>) {
    0 <= start <= I64_MAX && (end.Some? ==> InI64(end.value))
  }

  /** Every range of the URL gets a key of its own. */
  ghost predicate RangesApart(query: Option<string>, matcher: Matcher) {
    forall s, e, s', e' | ValidRange(s, e) && ValidRange(s', e') ::
      CacheQuery(query, s, e, matcher) == CacheQuery(query, s', e', matcher) ==> s == s' && e == e'
  }

  /** The text is what `to_string` prints for some 64-bit integer. */
  predicate IsDecimal(text: string) {
    var n := ParseI64(text);
    n.Some? && ToText(n.value) == text
  }

  predicate CarriesNoRange(query: Option<string>, matcher: Matcher) {
    var own := QueryMap(QueryPairs(query));
    && "startrange" !in matcher.ignored && "endrange" !in matcher.ignored
    && START_RANGE !in own && (END_RANGE in own ==> !IsDecimal(own[END_RANGE]))
  }

  lemma KeepsRanges(matcher: Matcher)
    ensures matcher.Keeps(START_RANGE) <==> "startrange" !in matcher.ignored
    ensures matcher.Keeps(END_RANGE) <==> "endrange" !in matcher.ignored
  {
    assert Lower(START_RANGE) == "startrange" && Lower(END_RANGE) == "endrange";
  }

  lemma {:induction false} RangeIsRecoverable(query: Option<string>, matcher: Matcher, s: int,
                                              e: Option<int>, s': int, e': Option<int>)
    requires CarriesNoRange(query, matcher) && ValidRange(s, e) && ValidRange(s', e')
    requires CacheQuery(query, s, e, matcher) == CacheQuery(query, s', e', matcher)
    ensures s == s' && e == e'
  {
    assert ToText(0) == "0";
    KeepsRanges(matcher);
    hide CacheQuery, ParseI64, ToText, Matcher.Keeps;
    SameKeyExactly(query, s, e, query, s', e', matcher);
    var own := QueryMap(QueryPairs(query));
    var m, n := Effective(query, s, e, matcher), Effective(query, s', e', matcher);
    StartEntry(own, s, e, matcher);
    StartEntry(own, s', e', matcher);
    EndEntry(own, s, e, matcher);
    EndEntry(own, s', e', matcher);
    if s > 0 || e.Some? {
      assert START_RANGE in m;
      ParseToText(s);
      ParseToText(s');
    }
    if e.Some? {
      ParseToText(e.value);
    }
    if e'.Some? {
      ParseToText(e'.value);
    }
  }

  lemma StartEntry(own: Params, s: int, e: Option<int>, matcher: Matcher)
    requires matcher.Keeps(START_RANGE) && START_RANGE !in own && s >= 0
    ensures var m := Kept(WithRange(own, s, e), matcher);
            && (START_RANGE in m <==> s > 0 || e.Some?)
            && (START_RANGE in m ==> m[START_RANGE] == ToText(s))
  {
    assert ToText(0) == "0";
  }

  lemma EndEntry(own: Params, s: int, e: Option<int>, matcher: Matcher)
    requires matcher.Keeps(END_RANGE)
    ensures var m := Kept(WithRange(own, s, e), matcher);
            && (END_RANGE in m <==> END_RANGE in own || e.Some?)
            && (END_RANGE in m ==> m[END_RANGE] == if e.Some? then ToText(e.value) else own[END_RANGE])
  {
    assert START_RANGE != END_RANGE by { assert START_RANGE[0] != END_RANGE[0]; }
  }

  /** Ranges of one URL share keys exactly when the URL brings a range of its own, or the matcher
      ignores a range parameter. */
  lemma RangesApartExactly(query: Option<string>, matcher: Matcher)
    ensures RangesApart(query, matcher) <==> CarriesNoRange(query, matcher)
  {
    hide CacheQuery;
    if CarriesNoRange(query, matcher) {
      forall s, e, s', e' | ValidRange(s, e) && ValidRange(s', e') &&
                            CacheQuery(query, s, e, matcher) == CacheQuery(query, s', e', matcher)
        ensures s == s' && e == e'
      {
        RangeIsRecoverable(query, matcher, s, e, s', e');
      }
    } else {
      var s, e, s', e' := Collision(query, matcher);
    }
  }

  lemma {:induction false} Collision(query: Option<string>, matcher: Matcher) returns (s: int,
                                     e: Option<int>, s': int, e': Option<int>)
    requires !CarriesNoRange(query, matcher)
    ensures ValidRange(s, e) && ValidRange(s', e') && (s, e) != (s', e')
    ensures CacheQuery(query, s, e, matcher) == CacheQuery(query, s', e', matcher)
  {
    KeepsRanges(matcher);
    hide CacheQuery, ParseI64, ToText, QueryMap, QueryPairs, WithRange, Kept, Matcher.Keeps;
    var own := QueryMap(QueryPairs(query));
    if !matcher.Keeps(START_RANGE) || START_RANGE in own {
      s, e, s', e' := 1, None, 2, None;
    } else if !matcher.Keeps(END_RANGE) {
      s, e, s', e' := 1, Some(1), 1, Some(2);
    } else {
      s, e, s', e' := 1, None, 1, Some(ParseI64(own[END_RANGE]).value);
    }
    SameKeyExactly(query, s, e, query, s', e', matcher);
    SameKept(own, s, e, s', e', matcher);
  }

  lemma SameKept(own: Params, s: int, e: Option<int>, s': int, e': Option<int>, matcher: Matcher)
    requires || ((!matcher.Keeps(START_RANGE) || START_RANGE in own) && s > 0 && s' > 0 && e == e' == None)
             || (!matcher.Keeps(END_RANGE) && s == s' > 0 && e.Some? && e'.Some?)
             || (s == s' > 0 && e == None && e'.Some? && END_RANGE in own && own[END_RANGE] == ToText(e'.value))
    ensures Kept(WithRange(own, s, e), matcher) == Kept(WithRange(own, s', e'), matcher)
  {
    hide Matcher.Keeps, ToText;
    var a, b := Kept(WithRange(own, s, e), matcher), Kept(WithRange(own, s', e'), matcher);
    assert forall k :: k in a <==> k in b;
    assert forall k | k in a :: a[k] == b[k];
  }

  // ---------------------------------------------------------------------------------------
  // Entries

  /** The hash tells these URLs apart and gives each 32 characters, as MD5 in hex does while none collide. */
  ghost predicate ApartOn(hash: Url -> string, uris: set<Url>) {
    && (forall u, v | u in uris && v in uris && hash(u) == hash(v) :: u == v)
    && (forall u | u in uris :: |hash(u)| == 32)
  }

  function Pow10(n: nat): nat { if n == 0 then 1 else 10 * Pow10(n - 1) }

  lemma {:induction false} Pow10Of(m: nat, n: nat)
    ensures Pow10(m + n) == Pow10(m) * Pow10(n)
  {
    if m > 0 {
      Pow10Of(m - 1, n);
    }
  }

  lemma TenTo32()
    ensures Pow10(32) == 1_0000_0000_0000_0000_0000_0000_0000_0000
  {
    assert Pow10(4) == 10 * (10 * (10 * (10 * Pow10(0))));
    Pow10Of(4, 4);
    Pow10Of(8, 8);
    Pow10Of(16, 16);
  }

  /** The last `width` decimal digits, with leading zeros. */
  function Padded(n: nat, width: nat): (s: string)
    ensures |s| == width
  {
    if width == 0 then [] else Padded(n / 10, width - 1) + [DigitOf(n % 10)]
  }

  lemma {:induction false} PaddedInjective(m: nat, n: nat, width: nat)
    requires m < Pow10(width) && n < Pow10(width) && Padded(m, width) == Padded(n, width)
    ensures m == n
  {
    if width > 0 {
      var a, b := Padded(m / 10, width - 1), Padded(n / 10, width - 1);
      assert a == Padded(m, width)[..width - 1] && b == Padded(n, width)[..width - 1];
      assert DigitOf(m % 10) == Padded(m, width)[width - 1] && DigitOf(n % 10) == Padded(n, width)[width - 1];
      PaddedInjective(m / 10, n / 10, width - 1);
    }
  }

  lemma {:induction false} Listing(uris: set<Url>) returns (list: seq<Url>)
    ensures |list| == |uris| && forall u | u in uris :: u in list
    decreases |uris|
  {
    if uris == {} {
      list := [];
    } else {
      var u :| u in uris;
      var rest := Listing(uris - {u});
      list := [u] + rest;
    }
  }

  /** There is such a hash for any set of URLs that 32 decimal digits can number. */
  lemma {:induction false} HashExists(uris: set<Url>) returns (hash: Url -> string)
    requires |uris| <= Pow10(32)
    ensures ApartOn(hash, uris)
  {
    var list := Listing(uris);
    hash := u => if u in list then (var i :| 0 <= i < |list| && list[i] == u; Padded(i, 32)) else [];
    forall u, v | u in uris && v in uris && hash(u) == hash(v) ensures u == v {
      var i :| 0 <= i < |list| && list[i] == u && hash(u) == Padded(i, 32);
      var j :| 0 <= j < |list| && list[j] == v && hash(v) == Padded(j, 32);
      PaddedInjective(i, j, 32);
    }
  }

  ghost function EntryOf(t: KeyTask, matcher: Matcher, hash: Url -> string): string {
    hash(CacheUri(t, matcher))
  }

  /** The canonical URL of the whole file. */
  ghost function WholeUri(t: KeyTask, matcher: Matcher): Url {
    CacheUri(t.(start := 0, end := None), matcher)
  }

  /** for_content_length. */
  ghost function MetadataEntryOf(t: KeyTask, matcher: Matcher, hash: Url -> string): string {
    EntryOf(t.(start := 0, end := None), matcher, hash) + "__content_length__"
  }

  /** The metadata slot of a URL is nobody's byte range, and is shared exactly by the tasks whose
      whole-file keys are the same. */
  lemma MetadataIsApart(t: KeyTask, u: KeyTask, matcher: Matcher, hash: Url -> string)
    requires ApartOn(hash, {WholeUri(t, matcher), WholeUri(u, matcher), CacheUri(u, matcher)})
    ensures MetadataEntryOf(t, matcher, hash) != EntryOf(u, matcher, hash)
    ensures MetadataEntryOf(t, matcher, hash) == MetadataEntryOf(u, matcher, hash) <==>
            WholeUri(t, matcher) == WholeUri(u, matcher)
  {
    hide CacheUri;
    var a, b := EntryOf(t.(start := 0, end := None), matcher, hash), EntryOf(u.(start := 0, end := None), matcher, hash);
    var x, y := MetadataEntryOf(t, matcher, hash), MetadataEntryOf(u, matcher, hash);
    assert x[..32] == a && y[..32] == b;
  }

  /** Entries of one URL are equal exactly when the ranges are, unless the URL carries a range. */
  lemma {:induction false} EntriesFollowRanges(t: KeyTask, s: int, e: Option<int>, matcher: Matcher, hash: Url -> string)
    requires ApartOn(hash, {CacheUri(t, matcher), CacheUri(t.(start := s, end := e), matcher)})
    requires CarriesNoRange(t.uri.query, matcher) && ValidRange(t.start, t.end) && ValidRange(s, e)
    ensures EntryOf(t, matcher, hash) == EntryOf(t.(start := s, end := e), matcher, hash) <==>
            t.start == s && t.end == e
  {
    hide CacheQuery;
    if EntryOf(t, matcher, hash) == EntryOf(t.(start := s, end := e), matcher, hash) {
      RangeIsRecoverable(t.uri.query, matcher, t.start, t.end, s, e);
    }
  }
}
