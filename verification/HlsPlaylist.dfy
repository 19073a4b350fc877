/** The two readers of media playlists, and the byte ranges each gives the segments. */
module HlsPlaylists {
  import opened Wrappers
  import opened Text
  import opened Decimal

  const EXTM3U := "#EXTM3U"
  const EXTINF := "#EXTINF"
  const BYTERANGE := "#EXT-X-BYTERANGE"
  const BYTERANGE_TAG := "#EXT-X-BYTERANGE:"
  const STREAM_INF := "#EXT-X-STREAM-INF"

  type Range = (int, Option<int>)

  // ---------------------------------------------------------------------------------------
  // parse_media

  datatype MediaSegment = MediaSegment(url: string, offset: Option<int>, length: Option<int>)
  {
    function Span(): Range {
      var start := if offset.Some? then offset.value else 0;
      (start, if length.Some? && length.value != 0 then Some(start + length.value - 1) else None)
    }
  }

  /** `pending` is the start and length the last BYTERANGE tag announced. */
  datatype MediaState = MediaState(segments: seq<MediaSegment>, lastEnd: int, pending: Option<(int, int)>)

  function TrimStartMatches(s: string, prefix: string): string
    requires prefix != ""
  {
    if prefix <= s then TrimStartMatches(s[|prefix|..], prefix) else s
  }

  function ParseByterangeTag(line: string, lastEnd: int): Option<(int, int)> {
    var payload := TrimStartMatches(line, BYTERANGE_TAG);
    var parts := SplitOnce(payload, '@');
    if parts.None? then
      var length := ParseI64(payload);
      if length.None? then None else Some((lastEnd, length.value))
    else if '@' in parts.value.1 then None
    else
      var length, start := ParseI64(parts.value.0), ParseI64(parts.value.1);
      if length.None? || start.None? then None else Some((start.value, length.value))
  }

  function MediaStep(st: MediaState, line: string): MediaState {
    var t := Trim(line);
    if BYTERANGE_TAG <= t then
      var p := ParseByterangeTag(t, st.lastEnd);
      st.(pending := p, lastEnd := if p.Some? then p.value.1 else st.lastEnd)
    else if t == "" || t[0] == '#' then st
    else
      var start := if st.pending.Some? then st.pending.value.0 else 0;
      var length := if st.pending.Some? then Some(st.pending.value.1) else None;
      MediaState(
        st.segments + [MediaSegment(t, if start > 0 || length.Some? then Some(start) else None, length)],
        if length.Some? && length.value != 0 then start + length.value else st.lastEnd,
        None)
  }

  function MediaRun(st: MediaState, lines: seq<string>): MediaState
    decreases |lines|
  {
    if lines == [] then st else MediaRun(MediaStep(st, lines[0]), lines[1..])
  }

  const MEDIA_START := MediaState([], 0, None)

  /** What parse_media makes of the text after the tag, whether it is well formed or not: a length, or a
      length and an offset around the only `@`; anything else is no range. */
  lemma {:induction false} ByterangeIsRead(length: string, offset: Option<string>, lastEnd: int)
    requires '@' !in length && !(BYTERANGE_TAG <= TagBody(length, offset))
    ensures var n := ParseI64(length);
            ParseByterangeTag(BYTERANGE_TAG + TagBody(length, offset), lastEnd) ==
            if n.None? then None
            else if offset.None? then Some((lastEnd, n.value))
            else if '@' in offset.value || ParseI64(offset.value).None? then None
            else Some((ParseI64(offset.value).value, n.value))
  {
    var body := TagBody(length, offset);
    TagIsStripped(body);
    hide ParseI64, TrimStartMatches;
    if offset.Some? {
      SplitAtFirst(length, '@', offset.value);
      assert body == length + ['@'] + offset.value;
    } else {
      assert body == length;
      NoSeparator(length, '@');
    }
  }

  function TagBody(length: string, offset: Option<string>): string {
    length + if offset.Some? then "@" + offset.value else ""
  }

  /** The tag is taken off as often as it is repeated. */
  lemma TagIsStripped(body: string)
    ensures TrimStartMatches(BYTERANGE_TAG + body, BYTERANGE_TAG) == TrimStartMatches(body, BYTERANGE_TAG)
    ensures !(BYTERANGE_TAG <= body) ==> TrimStartMatches(BYTERANGE_TAG + body, BYTERANGE_TAG) == body
  {
    assert (BYTERANGE_TAG + body)[|BYTERANGE_TAG|..] == body;
  }

  lemma {:induction false} NoSeparator(s: string, c: char)
    requires c !in s
    ensures SplitOnce(s, c).None?
  {
    if s != "" {
      NoSeparator(s[1..], c);
    }
  }

  /** How a line moves parse_media on: a BYTERANGE tag announces a range, or withdraws an earlier one when it
      is malformed; a blank line, another tag or a comment does nothing; and any other line is a segment that
      takes the range announced. */
  lemma MediaStepIs(st: MediaState, line: string)
    ensures var t, r := Trim(line), MediaStep(st, line);
            if "#EXT-X-BYTERANGE:" <= t then
              var p := ParseByterangeTag(t, st.lastEnd);
              r.segments == st.segments && r.pending == p && (p.None? ==> r.lastEnd == st.lastEnd)
              && (p.Some? ==> r.lastEnd == p.value.1)
            else if t == "" || t[0] == '#' then r == st
            else
              && r.pending == None && |r.segments| == |st.segments| + 1 && r.segments[..|st.segments|] == st.segments
              && r.segments[|st.segments|].url == t
              && r.segments[|st.segments|].Span() ==
                 (if st.pending.None? then (0, None)
                  else (st.pending.value.0, if st.pending.value.1 == 0 then None
                                            else Some(st.pending.value.0 + st.pending.value.1 - 1)))
              && r.lastEnd == if st.pending.None? || st.pending.value.1 == 0 then st.lastEnd
                              else st.pending.value.0 + st.pending.value.1
  {
    hide Trim, ParseByterangeTag;
  }

  method ParseMedia(lines: seq<string>) returns (segments: seq<MediaSegment>)
    ensures segments == MediaRun(MEDIA_START, lines).segments
  {
    segments := [];
    var lastEnd, pending := 0, None;
    for i := 0 to |lines|
      invariant MediaRun(MediaState(segments, lastEnd, pending), lines[i..]) == MediaRun(MEDIA_START, lines)
    {
      ghost var st := MediaState(segments, lastEnd, pending);
      assert MediaRun(st, lines[i..]) == MediaRun(MediaStep(st, lines[i]), lines[i + 1..]);
      var trimmed := Trim(lines[i]);
      if BYTERANGE_TAG <= trimmed {
        pending := ParseByterangeTag(trimmed, lastEnd);
        if pending.Some? {
          lastEnd := pending.value.1;
        }
        continue;
      }
      if EXTINF <= trimmed {
        continue;
      }
      if trimmed == "" || trimmed[0] == '#' {
        continue;
      }
      var start, length := 0, None;
      if pending.Some? {
        start, length := pending.value.0, Some(pending.value.1);
        pending := None;
      }
      var end := if length.None? || length.value == 0 then None else Some(start + length.value - 1);
      segments := segments + [MediaSegment(trimmed, if start > 0 || length.Some? then Some(start) else None, length)];
      if end.Some? {
        lastEnd := end.value + 1;
      }
    }
  }

  // ---------------------------------------------------------------------------------------
  // rewrite_m3u8_playlist_inner, media segments only

  datatype RangedSegment = RangedSegment(url: string, start: int, end: Option<int>)
  {
    function Span(): Range { (start, end) }
  }

  datatype RewriteState = RewriteState(segments: seq<RangedSegment>, lastLine: string, lastEnd: int)

  function TakeDigits(s: string): (d: string)
    ensures d <= s
  {
    if s != [] && IsDigit(s[0]) then [s[0]] + TakeDigits(s[1..]) else []
  }

  /** The first match of `<tag>(\d+)(?:@(\d+))?`. */
  function FindTagged(tag: string, s: string): Option<(string, Option<string>)>
    decreases |s|
  {
    if tag <= s && TakeDigits(s[|tag|..]) != "" then
      var tail := s[|tag|..];
      var length := TakeDigits(tail);
      var rest := tail[|length|..];
      var offset := if rest != "" && rest[0] == '@' then TakeDigits(rest[1..]) else "";
      Some((length, if offset != "" then Some(offset) else None))
    else if s == "" then None
    else FindTagged(tag, s[1..])
  }

  /** The longest run of digits at the front. */
  lemma {:induction false} TakesAllDigits(s: string)
    ensures var d := TakeDigits(s);
            (forall i | 0 <= i < |d| :: '0' <= d[i] <= '9') && (|d| < |s| ==> !('0' <= s[|d|] <= '9'))
  {
    if s != [] && IsDigit(s[0]) {
      TakesAllDigits(s[1..]);
    }
  }

  /** The tag with a digit behind it stands at slot `i`. */
  predicate TaggedAt(tag: string, s: string, i: int) {
    0 <= i <= |s| && tag <= s[i..] && TakeDigits(s[i..][|tag|..]) != ""
  }

  /** The match is the leftmost; behind its number, `@` and a number are the offset. */
  lemma {:induction false} FindsLeftmost(tag: string, s: string) returns (i: nat)
    ensures i <= |s|
    ensures FindTagged(tag, s).None? ==> forall j :: !TaggedAt(tag, s, j)
    ensures FindTagged(tag, s).Some? ==>
              && TaggedAt(tag, s, i) && forall j | 0 <= j < i :: !TaggedAt(tag, s, j)
    ensures FindTagged(tag, s).Some? ==>
              var tail := s[i..][|tag|..];
              var (length, offset) := FindTagged(tag, s).value;
              var rest := tail[|TakeDigits(tail)|..];
              && length == TakeDigits(tail)
              && offset == if rest != "" && rest[0] == '@' && TakeDigits(rest[1..]) != "" then Some(TakeDigits(rest[1..]))
                           else None
    decreases |s|
  {
    hide TakeDigits;
    i := 0;
    assert s[0..] == s;
    if !TaggedAt(tag, s, 0) && s != "" {
      var k := FindsLeftmost(tag, s[1..]);
      i := k + 1;
      forall j | j > 0 ensures TaggedAt(tag, s, j) <==> TaggedAt(tag, s[1..], j - 1) {
        if j <= |s| {
          assert s[j..] == s[1..][j - 1..];
        }
      }
      assert s[i..] == s[1..][k..];
    }
  }

  function FindByterange(s: string): Option<(string, Option<string>)> { FindTagged(BYTERANGE_TAG, s) }

  function OrZero(n: Option<int>): int { if n.Some? then n.value else 0 }

  /** The range of a segment line, and the end carried on to later implicit ranges. */
  function RangeAfter(lastLine: string, lastEnd: int): (Range, int) {
    var found := if BYTERANGE <= lastLine then FindByterange(lastLine) else None;
    if found.None? then ((0, None), lastEnd)
    else
      var length := OrZero(ParseI64(found.value.0));
      var explicit := found.value.1;
      var start := if explicit.Some? then OrZero(ParseI64(explicit.value)) else lastEnd;
      var end := if length == 0 then None else Some(start + length - 1);
      ((start, end), if explicit.Some? then lastEnd else OrZero(end) + 1)
  }

  predicate Introduces(lastLine: string) { EXTINF <= lastLine || BYTERANGE <= lastLine || STREAM_INF <= lastLine }

  function RewriteStep(st: RewriteState, line: string, resolve: string -> string): RewriteState {
    if Introduces(st.lastLine) && !("#" <= line) then
      var (range, lastEnd) := RangeAfter(st.lastLine, st.lastEnd);
      RewriteState(st.segments + [RangedSegment(resolve(line), range.0, range.1)], line, lastEnd)
    else st.(lastLine := line)
  }

  function RewriteRun(st: RewriteState, lines: seq<string>, resolve: string -> string): RewriteState
    decreases |lines|
  {
    if lines == [] then st else RewriteRun(RewriteStep(st, lines[0], resolve), lines[1..], resolve)
  }

  const REWRITE_START := RewriteState([], "", 0)

  /** The rewriter collects a line exactly when it is no tag and the line before is one of three, under the
      range that line gives. */
  lemma RewriteStepIs(st: RewriteState, line: string, resolve: string -> string)
    ensures var r := RewriteStep(st, line, resolve);
            && r.lastLine == line
            && if ("#EXTINF" <= st.lastLine || "#EXT-X-BYTERANGE" <= st.lastLine || "#EXT-X-STREAM-INF" <= st.lastLine)
                  && (line == "" || line[0] != '#')
               then var (range, lastEnd) := RangeAfter(st.lastLine, st.lastEnd);
                    && r.segments == st.segments + [RangedSegment(resolve(line), range.0, range.1)] && r.lastEnd == lastEnd
               else r.segments == st.segments && r.lastEnd == st.lastEnd
  {
    hide RangeAfter;
  }

  /** The range after a line in which the tag is found with these digits: numbers that overflow count as
      zero, a length of zero leaves the range open, and a range without an offset carries its end on, even
      an open one. */
  lemma RangeAfterIs(lastLine: string, lastEnd: int)
    ensures !("#EXT-X-BYTERANGE" <= lastLine) || FindByterange(lastLine).None? ==>
              RangeAfter(lastLine, lastEnd) == ((0, None), lastEnd)
    ensures "#EXT-X-BYTERANGE" <= lastLine && FindByterange(lastLine).Some? ==>
              var (length, offset) := FindByterange(lastLine).value;
              var n := if ParseI64(length).Some? then ParseI64(length).value else 0;
              var start := if offset.None? then lastEnd
                           else if ParseI64(offset.value).Some? then ParseI64(offset.value).value else 0;
              RangeAfter(lastLine, lastEnd) ==
              ((start, if n == 0 then None else Some(start + n - 1)),
               if offset.Some? then lastEnd else if n == 0 then 1 else start + n)
  {
    hide FindByterange, ParseI64;
  }

  // ---------------------------------------------------------------------------------------
  // Auxiliary URIs

  const KEY := "#EXT-X-KEY"
  const MEDIA := "#EXT-X-MEDIA"
  const MAP := "#EXT-X-MAP"

  predicate NamesAux(text: string) { KEY <= text || MEDIA <= text || MAP <= text }

  /** What the rewriter lists, in the order of the lines. */
  datatype Collected = Aux(url: string) | Media(segment: RangedSegment)

  /** `uriOf` stands for the URI attribute of a trimmed tag line, made absolute. */
  function AuxOn(line: string, uriOf: string -> Option<string>): seq<Collected> {
    if NamesAux(Trim(line)) && uriOf(Trim(line)).Some? then [Aux(uriOf(Trim(line)).value)] else []
  }

  /** The segment the rewriter makes of the line, if any. */
  function MediaOn(st: RewriteState, line: string, resolve: string -> string): seq<Collected> {
    var next := RewriteStep(st, line, resolve);
    if |next.segments| > |st.segments| then [Media(next.segments[|st.segments|])] else []
  }

  /** An auxiliary line is one whose text begins with one of three tags and names a URI. */
  lemma AuxOnIs(line: string, uriOf: string -> Option<string>)
    ensures var t := Trim(line);
            AuxOn(line, uriOf) ==
            if ("#EXT-X-KEY" <= t || "#EXT-X-MEDIA" <= t || "#EXT-X-MAP" <= t) && uriOf(t).Some?
            then [Aux(uriOf(t).value)] else []
  {
    hide Trim;
  }

  function CollectRun(st: RewriteState, lines: seq<string>, resolve: string -> string,
                      uriOf: string -> Option<string>): seq<Collected>
    decreases |lines|
  {
    if lines == [] then []
    else
      (AuxOn(lines[0], uriOf) + MediaOn(st, lines[0], resolve))
      + CollectRun(RewriteStep(st, lines[0], resolve), lines[1..], resolve, uriOf)
  }

  function SegmentIn(c: Collected): seq<RangedSegment> { if c.Media? then [c.segment] else [] }

  function UrlIn(c: Collected): seq<string> { if c.Aux? then [c.url] else [] }

  function MediaOf(collected: seq<Collected>): seq<RangedSegment> {
    if collected == [] then [] else SegmentIn(collected[0]) + MediaOf(collected[1..])
  }

  function AuxOf(collected: seq<Collected>): seq<string> {
    if collected == [] then [] else UrlIn(collected[0]) + AuxOf(collected[1..])
  }

  /** The URIs of the auxiliary tags of a playlist. */
  function AuxUris(lines: seq<string>, uriOf: string -> Option<string>): seq<string> {
    if lines == [] then [] else AuxOf(AuxOn(lines[0], uriOf)) + AuxUris(lines[1..], uriOf)
  }

  lemma PartsOfCons(c: Collected, rest: seq<Collected>)
    ensures MediaOf([c] + rest) == SegmentIn(c) + MediaOf(rest) && AuxOf([c] + rest) == UrlIn(c) + AuxOf(rest)
  {
    hide SegmentIn, UrlIn;
    assert ([c] + rest)[1..] == rest;
  }

  lemma {:induction false} PartsOfJoin(a: seq<Collected>, b: seq<Collected>)
    ensures MediaOf(a + b) == MediaOf(a) + MediaOf(b) && AuxOf(a + b) == AuxOf(a) + AuxOf(b)
  {
    OnePart([]);
    hide MediaOf, AuxOf, SegmentIn, UrlIn;
    if a == [] {
      assert a + b == b;
    } else {
      PartsOfJoin(a[1..], b);
      PartsOfCons(a[0], a[1..]);
      PartsOfCons(a[0], a[1..] + b);
      assert [a[0]] + a[1..] == a && [a[0]] + (a[1..] + b) == a + b;
      Regroup(SegmentIn(a[0]), MediaOf(a[1..]), MediaOf(b));
      Regroup(UrlIn(a[0]), AuxOf(a[1..]), AuxOf(b));
    }
  }

  lemma Regroup<T>(a: seq<T>, b: seq<T>, c: seq<T>)
    ensures a + (b + c) == (a + b) + c
  {
  }

  lemma OnePart(some: seq<Collected>)
    requires |some| <= 1
    ensures some == [] ==> MediaOf(some) == [] && AuxOf(some) == []
    ensures some != [] ==> MediaOf(some) == SegmentIn(some[0]) && AuxOf(some) == UrlIn(some[0])
  {
    assert some != [] ==> some[1..] == [];
  }

  /** What one line contributes. */
  lemma {:induction false} LineParts(st: RewriteState, line: string, resolve: string -> string,
                                     uriOf: string -> Option<string>)
    ensures var here := AuxOn(line, uriOf) + MediaOn(st, line, resolve);
            && st.segments + MediaOf(here) == RewriteStep(st, line, resolve).segments
            && AuxOf(here) == AuxOf(AuxOn(line, uriOf))
  {
    hide RangeAfter, Introduces, NamesAux, Trim;
    var a, m := AuxOn(line, uriOf), MediaOn(st, line, resolve);
    PartsOfJoin(a, m);
    OnePart(a);
    OnePart(m);
  }

  /** Auxiliary URIs change nothing about the media segments; they are those of the KEY, MEDIA and MAP
      lines, in order. */
  lemma {:induction false} AuxIsApart(st: RewriteState, lines: seq<string>, resolve: string -> string,
                                      uriOf: string -> Option<string>)
    ensures var collected := CollectRun(st, lines, resolve, uriOf);
            && st.segments + MediaOf(collected) == RewriteRun(st, lines, resolve).segments
            && AuxOf(collected) == AuxUris(lines, uriOf)
    decreases |lines|
  {
    hide RewriteStep, AuxOn, MediaOn;
    OnePart([]);
    hide MediaOf, AuxOf;
    if lines != [] {
      var next := RewriteStep(st, lines[0], resolve);
      var here := AuxOn(lines[0], uriOf) + MediaOn(st, lines[0], resolve);
      var rest := CollectRun(next, lines[1..], resolve, uriOf);
      LineParts(st, lines[0], resolve, uriOf);
      AuxIsApart(next, lines[1..], resolve, uriOf);
      PartsOfJoin(here, rest);
      assert CollectRun(st, lines, resolve, uriOf) == here + rest;
      assert AuxUris(lines, uriOf) == AuxOf(here) + AuxUris(lines[1..], uriOf);
      hide CollectRun, AuxUris;
      Regroup(st.segments, MediaOf(here), MediaOf(rest));
    }
  }

  /** One line more. */
  lemma CollectNext(st: RewriteState, lines: seq<string>, i: nat, resolve: string -> string,
                    uriOf: string -> Option<string>, before: seq<Collected>)
    requires i < |lines|
    ensures before + CollectRun(st, lines[i..], resolve, uriOf) ==
            (before + AuxOn(lines[i], uriOf) + MediaOn(st, lines[i], resolve))
            + CollectRun(RewriteStep(st, lines[i], resolve), lines[i + 1..], resolve, uriOf)
  {
    hide RewriteStep, AuxOn, MediaOn;
    assert lines[i..][0] == lines[i] && lines[i..][1..] == lines[i + 1..];
  }

  function NoUri(line: string): Option<string> { None }

  /** The range of a segment after `lastLine`, and the end carried on. */
  method SegmentRange(lastLine: string, lastEnd: int) returns (start: int, end: Option<int>, carried: int)
    ensures ((start, end), carried) == RangeAfter(lastLine, lastEnd)
  {
    hide FindByterange, ParseI64;
    start, end, carried := 0, None, lastEnd;
    if BYTERANGE <= lastLine {
      var captures := FindByterange(lastLine);
      if captures.Some? {
        var length := OrZero(ParseI64(captures.value.0));
        if captures.value.1.Some? {
          start := OrZero(ParseI64(captures.value.1.value));
          end := if length == 0 then None else Some(start + length - 1);
        } else {
          start := lastEnd;
          end := if length == 0 then None else Some(start + length - 1);
          carried := OrZero(end) + 1;
        }
      }
    }
  }

  /** rewrite_m3u8_playlist_inner, the segments it lists.  `resolve` stands for making a segment line an
      absolute URL. */
  method RewriteInner(lines: seq<string>, resolve: string -> string, uriOf: string -> Option<string>, collectAux: bool)
    returns (collected: seq<Collected>)
    ensures collected == CollectRun(REWRITE_START, lines, resolve, if collectAux then uriOf else NoUri)
  {
    hide RangeAfter, Trim;
    collected := [];
    var lastLine, lastEnd := "", 0;
    ghost var uri, st := if collectAux then uriOf else NoUri, REWRITE_START;
    for i := 0 to |lines|
      invariant st.lastLine == lastLine && st.lastEnd == lastEnd
      invariant collected + CollectRun(st, lines[i..], resolve, uri) == CollectRun(REWRITE_START, lines, resolve, uri)
    {
      var line := lines[i];
      ghost var before, next, made := collected, RewriteStep(st, line, resolve), MediaOn(st, line, resolve);
      CollectNext(st, lines, i, resolve, uri, before);
      hide CollectRun;
      if collectAux && NamesAux(Trim(line)) {
        var found := uriOf(Trim(line));
        if found.Some? {
          collected := collected + [Aux(found.value)];
        }
      }
      assert collected == before + AuxOn(line, uri);
      if EXTINF <= lastLine || BYTERANGE <= lastLine || STREAM_INF <= lastLine {
        if !("#" <= line) {
          var start, end;
          start, end, lastEnd := SegmentRange(lastLine, lastEnd);
          collected := collected + [Media(RangedSegment(resolve(line), start, end))];
        }
      }
      assert collected == before + AuxOn(line, uri) + made;
      lastLine := line;
      st := next;
    }
  }

  /** segments_from_playlist_bytes: the media segments only. */
  method SegmentsFromPlaylist(lines: seq<string>, resolve: string -> string) returns (segments: seq<RangedSegment>)
    ensures segments == RewriteRun(REWRITE_START, lines, resolve).segments
  {
    var collected := RewriteInner(lines, resolve, NoUri, false);
    AuxIsApart(REWRITE_START, lines, resolve, NoUri);
    segments := MediaOf(collected);
  }
}
