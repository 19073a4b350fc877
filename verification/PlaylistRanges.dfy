/** The byte ranges the two readers give to the text of a media playlist: segments, each a URI line
    after any number of tag lines and empty or blank lines. */
module PlaylistRanges {
  import opened Wrappers
  import opened Text
  import opened Decimal
  import opened HlsPlaylists

  // ---------------------------------------------------------------------------------------
  // Playlists

  datatype Tag =
    | Inf(info: string)                             // #EXTINF<info>
    | ByteRange(length: nat, offset: Option<nat>)   // #EXT-X-BYTERANGE:<length>[@<offset>]
    | Other(text: string)                           // any other tag or comment
    | Empty(blanks: string)                         // no tag at all: an empty or blank line
  {
    predicate Valid() {
      match this
      case Inf(_) => true
      case ByteRange(n, o) => n > 0 && InI64(n) && (o.Some? ==> InI64(o.value))
      case Other(text) => text != "" && text[0] == '#' && !Introduces(text)
      case Empty(blanks) => Blank(blanks)
    }

    function Text(): string {
      match this
      case Inf(info) => EXTINF + info
      case ByteRange(n, o) => TagText(n, o)
      case Other(text) => text
      case Empty(blanks) => blanks
    }

    predicate MakesCollect() { Inf? || ByteRange? }
  }

  datatype Block = Block(tags: seq<Tag>, uri: string)
  {
    predicate Valid() {
      uri != "" && uri[0] != '#' && !IsSpace(uri[0]) && AllTagsValid(tags)
    }
  }

  predicate AllTagsValid(tags: seq<Tag>) { forall i | 0 <= i < |tags| :: tags[i].Valid() }

  predicate AllValid(blocks: seq<Block>) { forall i | 0 <= i < |blocks| :: blocks[i].Valid() }

  function TagText(length: nat, offset: Option<nat>): string {
    BYTERANGE_TAG + ToText(length) + if offset.Some? then "@" + ToText(offset.value) else ""
  }

  function TagLines(tags: seq<Tag>, eol: string): seq<string> {
    if tags == [] then [] else TagLines(tags[..|tags| - 1], eol) + [tags[|tags| - 1].Text() + eol]
  }

  function AllLines(blocks: seq<Block>, eol: string): seq<string> {
    if blocks == [] then [] else TagLines(blocks[0].tags, eol) + ([blocks[0].uri + eol] + AllLines(blocks[1..], eol))
  }

  /** `eol` is what the line splitter leaves on each line: nothing, or a carriage return; `trailer` the
      tags after the last segment. */
  function Playlist(blocks: seq<Block>, trailer: seq<Tag>, eol: string): seq<string> {
    [EXTM3U + eol] + (AllLines(blocks, eol) + TagLines(trailer, eol))
  }

  // ---------------------------------------------------------------------------------------
  // What ranges they do get

  /** The BYTERANGE tag that counts: the last one. */
  function RangeTag(tags: seq<Tag>): Option<(nat, Option<nat>)> {
    if tags == [] then None
    else
      var t := tags[|tags| - 1];
      if t.ByteRange? then Some((t.length, t.offset)) else RangeTag(tags[..|tags| - 1])
  }

  /** The running offset parse_media has once it has read the tags. */
  function OffsetAfter(tags: seq<Tag>, next: int): int {
    var r := RangeTag(tags);
    if r.Some? then r.value.0 else next
  }

  /** The running offset in force when the last BYTERANGE tag is read: an earlier BYTERANGE tag of the
      same segment leaves its length there. */
  function Base(tags: seq<Tag>, next: int): int {
    if tags == [] then next
    else if tags[|tags| - 1].ByteRange? then OffsetAfter(tags[..|tags| - 1], next)
    else Base(tags[..|tags| - 1], next)
  }

  predicate Implicit(b: Block) { RangeTag(b.tags).Some? && RangeTag(b.tags).value.1.None? }

  predicate Explicit(b: Block) { RangeTag(b.tags).Some? && RangeTag(b.tags).value.1.Some? }

  function SpanFrom(r: Option<(nat, Option<nat>)>, start: int): Range {
    if r.None? then (0, None)
    else
      var first := if r.value.1.Some? then r.value.1.value else start;
      (first, Some(first + r.value.0 - 1))
  }

  function SpanOf(b: Block, next: int): Range { SpanFrom(RangeTag(b.tags), Base(b.tags, next)) }

  /** Where a range that starts at `start`, unless it has an offset, ends. */
  function EndFrom(r: Option<(nat, Option<nat>)>, start: int, next: int): int {
    if r.None? then next else (if r.value.1.Some? then r.value.1.value else start) + r.value.0
  }

  function EndOf(b: Block, next: int): int { EndFrom(RangeTag(b.tags), Base(b.tags, next), next) }

  /** parse_media: without an offset, a range begins right after the previous one. */
  function Tiled(blocks: seq<Block>, next: int): seq<Range> {
    if blocks == [] then [] else [SpanOf(blocks[0], next)] + Tiled(blocks[1..], EndOf(blocks[0], next))
  }

  /** The line before the URI makes the rewriter collect it. */
  predicate Collects(b: Block) { b.tags != [] && b.tags[|b.tags| - 1].MakesCollect() }

  /** The BYTERANGE tag the rewriter sees: the line right before the URI. */
  function SeenTag(b: Block): Option<(nat, Option<nat>)> {
    if b.tags != [] && b.tags[|b.tags| - 1].ByteRange? then RangeTag(b.tags) else None
  }

  function SumAfter(b: Block, total: int): int {
    var r := SeenTag(b);
    if r.Some? && r.value.1.None? then total + r.value.0 else total
  }

  /** The rewriter: without an offset, a range begins after the previous range without an offset. */
  function Collected(blocks: seq<Block>, total: int): seq<Range> {
    if blocks == [] then []
    else (if Collects(blocks[0]) then [SpanFrom(SeenTag(blocks[0]), total)] else [])
         + Collected(blocks[1..], SumAfter(blocks[0], total))
  }

  // ---------------------------------------------------------------------------------------
  // When they are the same

  /** The URI directly follows its BYTERANGE tag, or an EXTINF tag when it has none. */
  predicate Adjacent(b: Block) {
    b.tags != [] && if RangeTag(b.tags).Some? then b.tags[|b.tags| - 1].ByteRange? else b.tags[|b.tags| - 1].Inf?
  }

  /** A range without an offset starts where the lengths without offsets so far add up to: `after` is
      the end of an explicit range in between, and an earlier BYTERANGE tag of the segment itself
      counts as one that ended at its length. */
  predicate Aligned(blocks: seq<Block>, total: int, after: Option<int>) {
    blocks == [] ||
    var b, next := blocks[0], if after.Some? then after.value else total;
    if RangeTag(b.tags).None? then Aligned(blocks[1..], total, after)
    else if Explicit(b) then Aligned(blocks[1..], total, Some(EndOf(b, next)))
    else Base(b.tags, next) == total && Aligned(blocks[1..], EndOf(b, total), None)
  }

  predicate AllAdjacent(blocks: seq<Block>) { forall i | 0 <= i < |blocks| :: Adjacent(blocks[i]) }

  lemma {:induction false} OnePerBlock(blocks: seq<Block>, next: int, total: int)
    ensures |Tiled(blocks, next)| == |blocks| && |Collected(blocks, total)| <= |blocks|
  {
    if blocks != [] {
      OnePerBlock(blocks[1..], EndOf(blocks[0], next), SumAfter(blocks[0], total));
    }
  }

  lemma {:induction false} RangeTagIsLast(tags: seq<Tag>)
    requires tags != [] && tags[|tags| - 1].ByteRange?
    ensures RangeTag(tags) == Some((tags[|tags| - 1].length, tags[|tags| - 1].offset))
  {
  }

  lemma {:induction false} RangeTagPositive(tags: seq<Tag>)
    requires AllTagsValid(tags) && RangeTag(tags).Some?
    ensures RangeTag(tags).value.0 > 0
  {
    if !tags[|tags| - 1].ByteRange? {
      RangeTagPositive(tags[..|tags| - 1]);
    }
  }

  /** Two heads agree exactly when the rewriter sees the tag that counts and starts it where
      parse_media does. */
  lemma HeadsAgree(b: Block, next: int, total: int)
    requires b.Valid() && Collects(b)
    ensures SpanOf(b, next) == SpanFrom(SeenTag(b), total) <==>
            Adjacent(b) && (Implicit(b) ==> Base(b.tags, next) == total)
    ensures Adjacent(b) ==> SeenTag(b) == RangeTag(b.tags)
  {
    var last := b.tags[|b.tags| - 1];
    if last.ByteRange? {
      RangeTagIsLast(b.tags);
    }
    if RangeTag(b.tags).Some? {
      RangeTagPositive(b.tags);
    }
  }

  lemma {:induction false} TiledIsCollectedExactly(blocks: seq<Block>, total: int, after: Option<int>)
    requires AllValid(blocks)
    ensures Tiled(blocks, if after.Some? then after.value else total) == Collected(blocks, total) <==>
            AllAdjacent(blocks) && Aligned(blocks, total, after)
    decreases |blocks|, 0
  {
    if blocks != [] {
      hide SpanOf, SpanFrom, Base, RangeTag, Adjacent;
      var b, next, rest := blocks[0], if after.Some? then after.value else total, blocks[1..];
      OnePerBlock(rest, EndOf(b, next), SumAfter(b, total));
      assert AllAdjacent(blocks) <==> Adjacent(b) && AllAdjacent(rest) by {
        assert forall i | 0 <= i < |rest| :: rest[i] == blocks[i + 1];
        assert forall i | 1 <= i < |blocks| :: blocks[i] == rest[i - 1];
      }
      if Collects(b) {
        HeadsAgree(b, next, total);
        ConsEqual(SpanOf(b, next), Tiled(rest, EndOf(b, next)),
                  SpanFrom(SeenTag(b), total), Collected(rest, SumAfter(b, total)));
        if SpanOf(b, next) == SpanFrom(SeenTag(b), total) {
          TailsAgree(b, rest, total, after);
        }
      } else {
        NotCollectedIsNotAdjacent(b);
      }
    }
  }

  lemma NotCollectedIsNotAdjacent(b: Block)
    requires !Collects(b)
    ensures !Adjacent(b)
  {
  }

  /** What an agreeing head leaves to the rest. */
  lemma {:induction false} TailsAgree(b: Block, rest: seq<Block>, total: int, after: Option<int>)
    requires AllValid(rest) && SeenTag(b) == RangeTag(b.tags)
    requires Implicit(b) ==> Base(b.tags, if after.Some? then after.value else total) == total
    ensures var next := if after.Some? then after.value else total;
            Tiled(rest, EndOf(b, next)) == Collected(rest, SumAfter(b, total)) <==>
            AllAdjacent(rest) && Aligned([b] + rest, total, after)
    decreases |rest|, 1
  {
    var next := if after.Some? then after.value else total;
    assert ([b] + rest)[0] == b && ([b] + rest)[1..] == rest;
    if RangeTag(b.tags).None? {
      TiledIsCollectedExactly(rest, total, after);
    } else if Explicit(b) {
      TiledIsCollectedExactly(rest, total, Some(EndOf(b, next)));
    } else {
      TiledIsCollectedExactly(rest, total + RangeTag(b.tags).value.0, None);
    }
  }

  lemma ConsEqual(x: Range, a: seq<Range>, y: Range, b: seq<Range>)
    ensures [x] + a == [y] + b <==> x == y && a == b
  {
    assert ([x] + a)[1..] == a && ([y] + b)[1..] == b;
    assert ([x] + a)[0] == x && ([y] + b)[0] == y;
  }

  // ---------------------------------------------------------------------------------------
  // Reading the text of a tag

  lemma {:induction false} TrimEndKeeps(s: string, prefix: string)
    requires prefix <= s && prefix != "" && !IsSpace(prefix[|prefix| - 1])
    ensures prefix <= TrimEnd(s)
  {
    if s != prefix && IsSpace(s[|s| - 1]) {
      TrimEndKeeps(s[..|s| - 1], prefix);
    }
  }

  lemma HeadOf(s: string, prefix: string)
    requires prefix <= s && prefix != "" && !IsSpace(prefix[0]) && !IsSpace(prefix[|prefix| - 1])
    ensures prefix <= Trim(s)
  {
    TrimEndKeeps(s, prefix);
  }

  /** A tag without blanks at the head of a line is at the head of its text. */
  lemma PrefixOfText(tag: string, text: string, eol: string)
    requires Blank(eol) && tag <= text + eol && forall i | 0 <= i < |tag| :: !IsSpace(tag[i])
    ensures tag <= text
  {
    assert forall i | 0 <= i < |tag| :: tag[i] == (text + eol)[i];
    assert eol != "" ==> (text + eol)[|text|] == eol[0] && IsSpace(eol[0]);
  }

  lemma NoBlanks()
    ensures forall i | 0 <= i < |EXTINF| :: !IsSpace(EXTINF[i])
    ensures forall i | 0 <= i < |BYTERANGE| :: !IsSpace(BYTERANGE[i])
    ensures forall i | 0 <= i < |STREAM_INF| :: !IsSpace(STREAM_INF[i])
  {
  }

  lemma OtherStaysOther(text: string, eol: string)
    requires Blank(eol) && text != "" && !Introduces(text)
    ensures !Introduces(text + eol)
  {
    NoBlanks();
    hide IsSpace;
    if EXTINF <= text + eol {
      PrefixOfText(EXTINF, text, eol);
    }
    if BYTERANGE <= text + eol {
      PrefixOfText(BYTERANGE, text, eol);
    }
    if STREAM_INF <= text + eol {
      PrefixOfText(STREAM_INF, text, eol);
    }
  }

  lemma TagIsRead(length: nat, offset: Option<nat>, lastEnd: int)
    requires InI64(length) && (offset.Some? ==> InI64(offset.value))
    ensures ParseByterangeTag(TagText(length, offset), lastEnd) ==
            Some((if offset.Some? then offset.value else lastEnd, length))
  {
    var text := TagText(length, offset);
    var digits := ToText(length);
    var payload := digits + if offset.Some? then "@" + ToText(offset.value) else "";
    assert text == BYTERANGE_TAG + payload;
    assert text[|BYTERANGE_TAG|..] == payload && payload[0] == digits[0] && digits[0] in digits;
    assert TrimStartMatches(payload, BYTERANGE_TAG) == payload;
    ParseToText(length);
    if offset.Some? {
      ParseToText(offset.value);
      SplitAtFirst(digits, '@', ToText(offset.value));
      assert payload == digits + ['@'] + ToText(offset.value);
    } else {
      assert payload == digits;
      assert '@' !in digits;
    }
  }

  lemma TagEnds(length: nat, offset: Option<nat>)
    ensures var t := TagText(length, offset);
            BYTERANGE_TAG <= t && IsDigit(t[|t| - 1]) && !IsSpace(t[|t| - 1]) && !IsSpace(t[0])
  {
    var t := TagText(length, offset);
    var last := if offset.Some? then ToText(offset.value) else ToText(length);
    assert t[|t| - 1] == last[|last| - 1];
    assert t[0] == '#';
  }

  lemma MediaReadsTag(st: MediaState, length: nat, offset: Option<nat>, eol: string)
    requires InI64(length) && (offset.Some? ==> InI64(offset.value)) && Blank(eol)
    ensures MediaStep(st, TagText(length, offset) + eol) ==
            st.(pending := Some((if offset.Some? then offset.value else st.lastEnd, length)), lastEnd := length)
  {
    hide ParseByterangeTag;
    var t := TagText(length, offset);
    TagEnds(length, offset);
    TrimsEnd(t, eol);
    assert Trim(t + eol) == t;
    TagIsRead(length, offset, st.lastEnd);
  }

  lemma UriTrims(uri: string, eol: string)
    requires uri != "" && uri[0] != '#' && !IsSpace(uri[0])
    ensures Trim(uri + eol) != "" && Trim(uri + eol)[0] == uri[0]
  {
    HeadOf(uri + eol, uri[..1]);
  }

  // ---------------------------------------------------------------------------------------
  // parse_media on blocks

  lemma UriStep(st: MediaState, line: string)
    requires Trim(line) != "" && Trim(line)[0] != '#'
    requires st.pending.Some? ==> st.pending.value.1 > 0
    ensures MediaStep(st, line) ==
            if st.pending.None? then st.(segments := st.segments + [MediaSegment(Trim(line), None, None)])
            else
              var (start, n) := st.pending.value;
              MediaState(st.segments + [MediaSegment(Trim(line), Some(start), Some(n))], start + n, None)
  {
    hide Trim;
  }

  /** A tag that is neither BYTERANGE leaves parse_media as it is. */
  lemma MediaSkips(st: MediaState, t: Tag, eol: string)
    requires t.Valid() && !t.ByteRange? && Blank(eol)
    ensures MediaStep(st, t.Text() + eol) == st
  {
    if t.Empty? {
      BlankJoins(t.blanks, eol);
      TrimBlank(t.blanks + eol);
    } else {
      MediaSkipsTag(st, t, eol);
    }
  }

  lemma BlankJoins(blanks: string, eol: string)
    requires Blank(blanks) && Blank(eol)
    ensures Blank(blanks + eol)
  {
  }

  lemma {:induction false} TrimBlank(eol: string)
    requires Blank(eol)
    ensures Trim(eol) == ""
  {
    TrimsBlanks(eol, "", "");
    assert eol + "" + "" == eol;
  }

  lemma MediaSkipsTag(st: MediaState, t: Tag, eol: string)
    requires t.Valid() && (t.Inf? || t.Other?) && Blank(eol)
    ensures MediaStep(st, t.Text() + eol) == st
  {
    var line := t.Text() + eol;
    assert line[0] == '#' by {
      assert t.Inf? ==> EXTINF[0] == '#';
    }
    HeadOf(line, line[..1]);
    TrimIsPrefix(line);
    if BYTERANGE_TAG <= Trim(line) {
      NotByterange(t, eol);
    }
  }

  lemma {:induction false} TrimEndIsPrefix(s: string)
    ensures TrimEnd(s) <= s
  {
    if s != "" && IsSpace(s[|s| - 1]) {
      TrimEndIsPrefix(s[..|s| - 1]);
    }
  }

  lemma TrimIsPrefix(s: string)
    requires s != "" && !IsSpace(s[0])
    ensures Trim(s) <= s
  {
    TrimEndIsPrefix(s);
  }

  lemma NotByterange(t: Tag, eol: string)
    requires t.Valid() && (t.Inf? || t.Other?) && Blank(eol)
    ensures !(BYTERANGE_TAG <= t.Text() + eol)
  {
    var line := t.Text() + eol;
    if t.Inf? {
      assert line[4] == EXTINF[4] && BYTERANGE_TAG[4] == '-';
    } else {
      OtherStaysOther(t.text, eol);
      assert BYTERANGE_TAG == BYTERANGE + ":";
    }
  }

  lemma {:induction false} MediaRunAppend(st: MediaState, lines: seq<string>, more: seq<string>)
    ensures MediaRun(st, lines + more) == MediaRun(MediaRun(st, lines), more)
    decreases |lines|
  {
    hide MediaStep;
    if lines == [] {
      assert lines + more == more;
    } else {
      assert (lines + more)[1..] == lines[1..] + more;
      MediaRunAppend(MediaStep(st, lines[0]), lines[1..], more);
    }
  }

  lemma MediaRunOne(st: MediaState, line: string)
    ensures MediaRun(st, [line]) == MediaStep(st, line)
  {
    hide MediaStep;
    assert [line][1..] == [];
  }

  function PendingOf(tags: seq<Tag>, next: int): Option<(int, int)> {
    var r := RangeTag(tags);
    if r.None? then None
    else Some((if r.value.1.Some? then r.value.1.value else Base(tags, next), r.value.0))
  }

  lemma {:induction false} MediaReadsTags(st: MediaState, tags: seq<Tag>, eol: string)
    requires AllTagsValid(tags) && Blank(eol) && st.pending == None
    ensures MediaRun(st, TagLines(tags, eol)) ==
            st.(pending := PendingOf(tags, st.lastEnd), lastEnd := OffsetAfter(tags, st.lastEnd))
  {
    hide MediaStep, Tag.Text, Blank;
    if tags != [] {
      var front, t := tags[..|tags| - 1], tags[|tags| - 1];
      MediaReadsTags(st, front, eol);
      MediaRunAppend(st, TagLines(front, eol), [t.Text() + eol]);
      var mid := MediaRun(st, TagLines(front, eol));
      MediaRunOne(mid, t.Text() + eol);
      if t.ByteRange? {
        MediaReadsRangeTag(mid, t, eol);
      } else {
        MediaSkips(mid, t, eol);
      }
    }
  }

  lemma MediaReadsRangeTag(st: MediaState, t: Tag, eol: string)
    requires t.Valid() && t.ByteRange? && Blank(eol)
    ensures MediaStep(st, t.Text() + eol) ==
            st.(pending := Some((if t.offset.Some? then t.offset.value else st.lastEnd, t.length)), lastEnd := t.length)
  {
    MediaReadsTag(st, t.length, t.offset, eol);
  }

  function MediaSegmentOf(b: Block, next: int, eol: string): MediaSegment {
    var p := PendingOf(b.tags, next);
    if p.None? then MediaSegment(Trim(b.uri + eol), None, None)
    else MediaSegment(Trim(b.uri + eol), Some(p.value.0), Some(p.value.1))
  }

  function MediaSegmentsOf(blocks: seq<Block>, next: int, eol: string): seq<MediaSegment> {
    if blocks == [] then []
    else [MediaSegmentOf(blocks[0], next, eol)] + MediaSegmentsOf(blocks[1..], EndOf(blocks[0], next), eol)
  }

  lemma {:induction false} MediaReadsBlock(st: MediaState, b: Block, eol: string)
    requires b.Valid() && Blank(eol) && st.pending == None
    ensures MediaRun(st, TagLines(b.tags, eol) + [b.uri + eol]) ==
            MediaState(st.segments + [MediaSegmentOf(b, st.lastEnd, eol)], EndOf(b, st.lastEnd), None)
  {
    hide Trim, MediaStep, Base, RangeTag, TagLines, IsSpace;
    MediaReadsTags(st, b.tags, eol);
    MediaRunAppend(st, TagLines(b.tags, eol), [b.uri + eol]);
    var mid := MediaRun(st, TagLines(b.tags, eol));
    MediaRunOne(mid, b.uri + eol);
    UriTrims(b.uri, eol);
    if RangeTag(b.tags).Some? {
      RangeTagPositive(b.tags);
    }
    UriStep(mid, b.uri + eol);
  }

  lemma {:induction false} MediaReadsBlocks(st: MediaState, blocks: seq<Block>, trailer: seq<Tag>, eol: string)
    requires AllValid(blocks) && AllTagsValid(trailer) && Blank(eol) && st.pending == None
    ensures MediaRun(st, AllLines(blocks, eol) + TagLines(trailer, eol)).segments ==
            st.segments + MediaSegmentsOf(blocks, st.lastEnd, eol)
    decreases |blocks|
  {
    hide MediaRun, MediaSegmentOf, EndOf, TagLines, Block.Valid;
    if blocks == [] {
      assert AllLines(blocks, eol) + TagLines(trailer, eol) == TagLines(trailer, eol);
      MediaReadsTags(st, trailer, eol);
    } else {
      var b := blocks[0];
      var here := TagLines(b.tags, eol) + [b.uri + eol];
      var rest := AllLines(blocks[1..], eol) + TagLines(trailer, eol);
      FirstBlock(TagLines(b.tags, eol), [b.uri + eol], AllLines(blocks[1..], eol), TagLines(trailer, eol));
      assert AllLines(blocks, eol) + TagLines(trailer, eol) == here + rest;
      MediaRunAppend(st, here, rest);
      MediaReadsBlock(st, b, eol);
      MediaReadsBlocks(MediaRun(st, here), blocks[1..], trailer, eol);
    }
  }

  lemma FirstBlock(tags: seq<string>, uri: seq<string>, rest: seq<string>, trailer: seq<string>)
    ensures (tags + (uri + rest)) + trailer == (tags + uri) + (rest + trailer)
  {
  }

  function MediaSpans(segments: seq<MediaSegment>): seq<Range> {
    seq(|segments|, i requires 0 <= i < |segments| => segments[i].Span())
  }

  lemma MediaSpanOf(b: Block, next: int, eol: string)
    requires b.Valid()
    ensures MediaSegmentOf(b, next, eol).Span() == SpanOf(b, next)
  {
    hide Trim;
    if RangeTag(b.tags).Some? {
      RangeTagPositive(b.tags);
    }
  }

  lemma {:induction false} MediaSpansAreTiled(blocks: seq<Block>, next: int, eol: string)
    requires AllValid(blocks)
    ensures MediaSpans(MediaSegmentsOf(blocks, next, eol)) == Tiled(blocks, next)
  {
    hide MediaSegmentOf, SpanOf, EndOf, MediaSegment.Span;
    if blocks != [] {
      var b := blocks[0];
      var segments := MediaSegmentsOf(blocks, next, eol);
      MediaSpansAreTiled(blocks[1..], EndOf(b, next), eol);
      MediaSpanOf(b, next, eol);
      assert segments[1..] == MediaSegmentsOf(blocks[1..], EndOf(b, next), eol);
      assert MediaSpans(segments) == [segments[0].Span()] + MediaSpans(segments[1..]);
    }
  }

  lemma MediaSkipsHeader(eol: string)
    requires Blank(eol)
    ensures MediaStep(MEDIA_START, EXTM3U + eol) == MEDIA_START
  {
    assert EXTM3U[4] == 'M' && EXTINF[4] == 'I' && BYTERANGE[4] == '-' && STREAM_INF[4] == '-';
    MediaSkips(MEDIA_START, Other(EXTM3U), eol);
  }

  lemma MediaIs(blocks: seq<Block>, trailer: seq<Tag>, eol: string)
    requires AllValid(blocks) && AllTagsValid(trailer) && Blank(eol)
    ensures MediaRun(MEDIA_START, Playlist(blocks, trailer, eol)).segments == MediaSegmentsOf(blocks, 0, eol)
  {
    hide MediaStep, AllLines, TagLines;
    var lines := Playlist(blocks, trailer, eol);
    MediaSkipsHeader(eol);
    assert lines[1..] == AllLines(blocks, eol) + TagLines(trailer, eol);
    MediaReadsBlocks(MEDIA_START, blocks, trailer, eol);
    assert MediaRun(MEDIA_START, lines) == MediaRun(MediaStep(MEDIA_START, lines[0]), lines[1..]);
  }

  /** parse_media gives every segment the range after the tags that count. */
  lemma MediaTiles(blocks: seq<Block>, trailer: seq<Tag>, eol: string)
    requires AllValid(blocks) && AllTagsValid(trailer) && Blank(eol)
    ensures MediaSpans(MediaRun(MEDIA_START, Playlist(blocks, trailer, eol)).segments) == Tiled(blocks, 0)
  {
    hide MediaRun, Playlist;
    MediaIs(blocks, trailer, eol);
    MediaSpansAreTiled(blocks, 0, eol);
  }

  /** Section 4.3.2.2 of RFC 8216, for segments with at most one BYTERANGE tag each. */
  function RfcRanges(blocks: seq<Block>, next: int): seq<Range> {
    if blocks == [] then []
    else
      var r := RangeTag(blocks[0].tags);
      [SpanFrom(r, next)] + RfcRanges(blocks[1..], EndFrom(r, next, next))
  }

  predicate SingleRange(tags: seq<Tag>) {
    tags == [] ||
    var t, front := tags[|tags| - 1], tags[..|tags| - 1];
    if t.ByteRange? then RangeTag(front).None? else SingleRange(front)
  }

  lemma {:induction false} BaseOfSingle(tags: seq<Tag>, next: int)
    requires SingleRange(tags)
    ensures Base(tags, next) == next
  {
    if tags != [] && !tags[|tags| - 1].ByteRange? {
      BaseOfSingle(tags[..|tags| - 1], next);
    }
  }

  lemma {:induction false} TiledIsRfc(blocks: seq<Block>, next: int)
    requires forall i | 0 <= i < |blocks| :: SingleRange(blocks[i].tags)
    ensures Tiled(blocks, next) == RfcRanges(blocks, next)
  {
    hide RangeTag, SpanFrom, EndFrom, Base, SingleRange;
    if blocks != [] {
      BaseOfSingle(blocks[0].tags, next);
      TiledIsRfc(blocks[1..], EndOf(blocks[0], next));
    }
  }

  /** parse_media follows the RFC wherever the RFC says what to do. */
  lemma MediaFollowsRfc(blocks: seq<Block>, trailer: seq<Tag>, eol: string)
    requires AllValid(blocks) && AllTagsValid(trailer) && Blank(eol)
    requires forall i | 0 <= i < |blocks| :: SingleRange(blocks[i].tags)
    ensures MediaSpans(MediaRun(MEDIA_START, Playlist(blocks, trailer, eol)).segments) == RfcRanges(blocks, 0)
  {
    hide MediaRun, Playlist;
    MediaTiles(blocks, trailer, eol);
    TiledIsRfc(blocks, 0);
  }

  // ---------------------------------------------------------------------------------------
  // The rewriter on blocks

  lemma {:induction false} DigitsTaken(d: string, rest: string)
    requires (forall c | c in d :: IsDigit(c)) && (rest == "" || !IsDigit(rest[0]))
    ensures TakeDigits(d + rest) == d
  {
    if d == "" {
      assert d + rest == rest;
    } else {
      assert (d + rest)[1..] == d[1..] + rest;
      assert d[0] in d;
      DigitsTaken(d[1..], rest);
    }
  }

  lemma FoundAtFront(tag: string, digits: string, more: Option<string>, eol: string)
    requires digits != "" && (forall c | c in digits :: IsDigit(c)) && Blank(eol)
    requires more.Some? ==> more.value != "" && forall c | c in more.value :: IsDigit(c)
    ensures FindTagged(tag, tag + (digits + (if more.Some? then "@" + more.value + eol else eol))) == Some((digits, more))
  {
    var tail := if more.Some? then "@" + more.value + eol else eol;
    var s := tag + (digits + tail);
    assert eol == "" || !IsDigit(eol[0]);
    assert s[|tag|..] == digits + tail;
    DigitsTaken(digits, tail);
    assert (digits + tail)[|digits|..] == tail;
    if more.Some? {
      assert tail[1..] == more.value + eol;
      DigitsTaken(more.value, eol);
    }
  }

  lemma TagIsFound(length: nat, offset: Option<nat>, eol: string)
    requires Blank(eol)
    ensures FindByterange(TagText(length, offset) + eol) ==
            Some((ToText(length), if offset.Some? then Some(ToText(offset.value)) else None))
  {
    hide FindTagged, ToText;
    var more := if offset.Some? then Some(ToText(offset.value)) else None;
    var tail := if more.Some? then "@" + more.value + eol else eol;
    FoundAtFront(BYTERANGE_TAG, ToText(length), more, eol);
    TagSplits(BYTERANGE_TAG, ToText(length), more, eol);
  }

  lemma TagSplits(tag: string, digits: string, more: Option<string>, eol: string)
    ensures tag + digits + (if more.Some? then "@" + more.value else "") + eol ==
            tag + (digits + (if more.Some? then "@" + more.value + eol else eol))
  {
  }

  lemma RangeIsRead(length: nat, offset: Option<nat>, eol: string, lastEnd: int)
    requires length > 0 && InI64(length) && (offset.Some? ==> InI64(offset.value)) && Blank(eol)
    ensures RangeAfter(TagText(length, offset) + eol, lastEnd) ==
            if offset.Some? then ((offset.value, Some(offset.value + length - 1)), lastEnd)
            else ((lastEnd, Some(lastEnd + length - 1)), lastEnd + length)
  {
    TagStarts(length, offset, eol);
    hide TagText, FindByterange, ParseI64, ToText;
    TagIsFound(length, offset, eol);
    ParseToText(length);
    if offset.Some? {
      ParseToText(offset.value);
    }
  }

  lemma TagRewrites(st: RewriteState, line: string, resolve: string -> string)
    requires line != "" && line[0] == '#'
    ensures RewriteStep(st, line, resolve) == st.(lastLine := line)
  {
    assert "#" <= line;
  }

  lemma UriRewrites(st: RewriteState, line: string, resolve: string -> string)
    requires Introduces(st.lastLine) && line != "" && line[0] != '#'
    ensures var (range, lastEnd) := RangeAfter(st.lastLine, st.lastEnd);
            RewriteStep(st, line, resolve) ==
            RewriteState(st.segments + [RangedSegment(resolve(line), range.0, range.1)], line, lastEnd)
  {
  }

  lemma PlainRange(line: string, lastEnd: int)
    requires EXTINF <= line
    ensures RangeAfter(line, lastEnd) == ((0, None), lastEnd)
  {
    assert line[4] == 'I' && BYTERANGE[4] == '-';
  }

  lemma TagStarts(length: nat, offset: Option<nat>, eol: string)
    ensures var tag := TagText(length, offset) + eol;
            tag != "" && tag[0] == '#' && BYTERANGE <= tag
  {
    assert BYTERANGE_TAG == BYTERANGE + ":";
    var more := ":" + ToText(length) + (if offset.Some? then "@" + ToText(offset.value) else "") + eol;
    assert TagText(length, offset) + eol == BYTERANGE + more;
  }

  lemma {:induction false} RewriteRunAppend(st: RewriteState, lines: seq<string>, more: seq<string>,
                                            resolve: string -> string)
    ensures RewriteRun(st, lines + more, resolve) == RewriteRun(RewriteRun(st, lines, resolve), more, resolve)
    decreases |lines|
  {
    hide RewriteStep;
    if lines == [] {
      assert lines + more == more;
    } else {
      assert (lines + more)[1..] == lines[1..] + more;
      RewriteRunAppend(RewriteStep(st, lines[0], resolve), lines[1..], more, resolve);
    }
  }

  lemma RewriteRunOne(st: RewriteState, line: string, resolve: string -> string)
    ensures RewriteRun(st, [line], resolve) == RewriteStep(st, line, resolve)
  {
    hide RewriteStep;
    assert [line][1..] == [];
  }

  lemma TagLineStarts(t: Tag, eol: string)
    requires t.Valid() && !t.Empty?
    ensures t.Text() + eol != "" && (t.Text() + eol)[0] == '#'
  {
    assert EXTINF[0] == '#';
    if t.ByteRange? {
      TagStarts(t.length, t.offset, eol);
    }
  }

  /** An empty or blank line right after EXTINF or BYTERANGE, which the rewriter takes for the URI. */
  predicate Stray(tags: seq<Tag>) {
    exists j :: 0 < j < |tags| && tags[j].Empty? && tags[j - 1].MakesCollect()
  }

  lemma FrontHasNoStray(tags: seq<Tag>)
    requires tags != [] && !Stray(tags)
    ensures !Stray(tags[..|tags| - 1])
  {
    var front := tags[..|tags| - 1];
    forall j | 0 < j < |front| ensures !(front[j].Empty? && front[j - 1].MakesCollect()) {
      assert front[j] == tags[j] && front[j - 1] == tags[j - 1];
    }
  }

  lemma BlankIntroducesNothing(eol: string)
    requires Blank(eol)
    ensures !Introduces(eol) && !("#" <= eol)
  {
    assert eol != "" ==> IsSpace(eol[0]) && !IsSpace('#');
    assert EXTINF[0] == '#' && BYTERANGE[0] == '#' && STREAM_INF[0] == '#';
  }

  /** Without a stray line, tag lines are only remembered, the last of them for good. */
  lemma {:induction false} RewriterReadsTags(st: RewriteState, tags: seq<Tag>, eol: string, resolve: string -> string)
    requires AllTagsValid(tags) && Blank(eol) && !Introduces(st.lastLine) && !Stray(tags)
    ensures RewriteRun(st, TagLines(tags, eol), resolve) ==
            if tags == [] then st else st.(lastLine := tags[|tags| - 1].Text() + eol)
  {
    hide RewriteStep, Tag.Text;
    if tags != [] {
      var front, t := tags[..|tags| - 1], tags[|tags| - 1];
      FrontHasNoStray(tags);
      RewriterReadsTags(st, front, eol, resolve);
      RewriteRunAppend(st, TagLines(front, eol), [t.Text() + eol], resolve);
      var mid := RewriteRun(st, TagLines(front, eol), resolve);
      RewriteRunOne(mid, t.Text() + eol, resolve);
      if t.Empty? {
        if front != [] {
          assert !front[|front| - 1].MakesCollect();
          LastTagDecides(front[|front| - 1], eol, 0);
        }
        UriSkipped(mid, t.Text() + eol, resolve);
      } else {
        TagLineStarts(t, eol);
        TagRewrites(mid, t.Text() + eol, resolve);
      }
    }
  }

  /** What the line before a URI makes of it. */
  lemma LastTagDecides(t: Tag, eol: string, total: int)
    requires t.Valid() && Blank(eol)
    ensures Introduces(t.Text() + eol) <==> t.MakesCollect()
    ensures t.Inf? ==> RangeAfter(t.Text() + eol, total) == ((0, None), total)
    ensures t.ByteRange? ==>
              RangeAfter(t.Text() + eol, total) ==
              (SpanFrom(Some((t.length, t.offset)), total), if t.offset.Some? then total else total + t.length)
  {
    hide RangeAfter, ToText;
    match t {
      case Inf(info) =>
        assert EXTINF <= t.Text() + eol;
        PlainRange(t.Text() + eol, total);
      case ByteRange(n, o) =>
        TagStarts(n, o, eol);
        RangeIsRead(n, o, eol, total);
      case Other(text) =>
        OtherStaysOther(text, eol);
      case Empty(blanks) =>
        BlankJoins(blanks, eol);
        BlankIntroducesNothing(blanks + eol);
    }
  }

  lemma UriSkipped(st: RewriteState, line: string, resolve: string -> string)
    requires !Introduces(st.lastLine)
    ensures RewriteStep(st, line, resolve) == st.(lastLine := line)
  {
  }

  lemma UriIntroducesNothing(uri: string, eol: string)
    requires uri != "" && uri[0] != '#'
    ensures !Introduces(uri + eol)
  {
    assert (uri + eol)[0] == uri[0] && EXTINF[0] == '#' && BYTERANGE[0] == '#' && STREAM_INF[0] == '#';
  }

  function RangedOf(b: Block, total: int, url: string): seq<RangedSegment> {
    if Collects(b) then
      var span := SpanFrom(SeenTag(b), total);
      [RangedSegment(url, span.0, span.1)]
    else []
  }

  lemma {:induction false} RewriterReadsBlock(st: RewriteState, b: Block, eol: string, resolve: string -> string)
    requires b.Valid() && Blank(eol) && !Introduces(st.lastLine) && !Stray(b.tags)
    ensures RewriteRun(st, TagLines(b.tags, eol) + [b.uri + eol], resolve) ==
            RewriteState(st.segments + RangedOf(b, st.lastEnd, resolve(b.uri + eol)), b.uri + eol, SumAfter(b, st.lastEnd))
  {
    hide RewriteStep, RangeAfter, Tag.Text, SpanFrom, Introduces, IsSpace;
    var uri := b.uri + eol;
    RewriterReadsTags(st, b.tags, eol, resolve);
    RewriteRunAppend(st, TagLines(b.tags, eol), [uri], resolve);
    var mid := RewriteRun(st, TagLines(b.tags, eol), resolve);
    RewriteRunOne(mid, uri, resolve);
    assert uri[0] == b.uri[0];
    if b.tags != [] {
      LastTagDecides(b.tags[|b.tags| - 1], eol, st.lastEnd);
      if b.tags[|b.tags| - 1].ByteRange? {
        RangeTagIsLast(b.tags);
      }
    }
    if Collects(b) {
      UriRewrites(mid, uri, resolve);
      CollectedSpan(b, st.lastEnd);
    } else {
      UriSkipped(mid, uri, resolve);
    }
  }

  lemma CollectedSpan(b: Block, total: int)
    requires Collects(b)
    ensures SeenTag(b).None? ==> b.tags[|b.tags| - 1].Inf? && SpanFrom(SeenTag(b), total) == (0, None)
  {
    if b.tags[|b.tags| - 1].ByteRange? {
      RangeTagIsLast(b.tags);
    }
  }

  function RangedSegmentsOf(blocks: seq<Block>, total: int, eol: string, resolve: string -> string): seq<RangedSegment> {
    if blocks == [] then []
    else
      RangedOf(blocks[0], total, resolve(blocks[0].uri + eol))
      + RangedSegmentsOf(blocks[1..], SumAfter(blocks[0], total), eol, resolve)
  }

  predicate NoStrays(blocks: seq<Block>, trailer: seq<Tag>) {
    !Stray(trailer) && forall i | 0 <= i < |blocks| :: !Stray(blocks[i].tags)
  }

  lemma {:induction false} RewriterReadsBlocks(st: RewriteState, blocks: seq<Block>, trailer: seq<Tag>, eol: string,
                                               resolve: string -> string)
    requires AllValid(blocks) && AllTagsValid(trailer) && Blank(eol) && !Introduces(st.lastLine)
    requires NoStrays(blocks, trailer)
    ensures RewriteRun(st, AllLines(blocks, eol) + TagLines(trailer, eol), resolve).segments ==
            st.segments + RangedSegmentsOf(blocks, st.lastEnd, eol, resolve)
    decreases |blocks|
  {
    hide RewriteRun, RangedOf, SumAfter, TagLines, Introduces, IsSpace, Stray;
    if blocks == [] {
      assert AllLines(blocks, eol) + TagLines(trailer, eol) == TagLines(trailer, eol);
      RewriterReadsTags(st, trailer, eol, resolve);
    } else {
      var b := blocks[0];
      var here := TagLines(b.tags, eol) + [b.uri + eol];
      var rest := AllLines(blocks[1..], eol) + TagLines(trailer, eol);
      FirstBlock(TagLines(b.tags, eol), [b.uri + eol], AllLines(blocks[1..], eol), TagLines(trailer, eol));
      assert AllLines(blocks, eol) + TagLines(trailer, eol) == here + rest;
      RewriteRunAppend(st, here, rest, resolve);
      RewriterReadsBlock(st, b, eol, resolve);
      UriIntroducesNothing(b.uri, eol);
      RewriterReadsBlocks(RewriteRun(st, here, resolve), blocks[1..], trailer, eol, resolve);
    }
  }

  /** Segments by the text of their line and their range. */
  type Item = (string, Range)

  function RangedItems(segments: seq<RangedSegment>): seq<Item> {
    seq(|segments|, i requires 0 <= i < |segments| => (segments[i].url, segments[i].Span()))
  }

  function MediaItems(segments: seq<MediaSegment>): seq<Item> {
    seq(|segments|, i requires 0 <= i < |segments| => (segments[i].url, segments[i].Span()))
  }

  function Spans(items: seq<Item>): seq<Range> { seq(|items|, i requires 0 <= i < |items| => items[i].1) }

  function LineText(line: string): string { Trim(line) }

  lemma ItemsOfJoin(a: seq<RangedSegment>, b: seq<RangedSegment>)
    ensures Spans(RangedItems(a + b)) == Spans(RangedItems(a)) + Spans(RangedItems(b))
  {
  }

  lemma {:induction false} RangedSpansAreCollected(blocks: seq<Block>, total: int, eol: string, resolve: string -> string)
    ensures Spans(RangedItems(RangedSegmentsOf(blocks, total, eol, resolve))) == Collected(blocks, total)
  {
    hide SpanFrom, SeenTag, SumAfter;
    if blocks != [] {
      var b := blocks[0];
      var first := RangedOf(b, total, resolve(b.uri + eol));
      RangedSpansAreCollected(blocks[1..], SumAfter(b, total), eol, resolve);
      ItemsOfJoin(first, RangedSegmentsOf(blocks[1..], SumAfter(b, total), eol, resolve));
      assert Spans(RangedItems(first)) == if Collects(b) then [SpanFrom(SeenTag(b), total)] else [];
    }
  }

  /** Where every URI is collected, the segments are the blocks' URIs in order. */
  lemma {:induction false} RangedUrls(blocks: seq<Block>, total: int, eol: string, resolve: string -> string)
    requires AllAdjacent(blocks)
    ensures var r := RangedSegmentsOf(blocks, total, eol, resolve);
            |r| == |blocks| && forall i | 0 <= i < |blocks| :: r[i].url == resolve(blocks[i].uri + eol)
  {
    hide SpanFrom, SeenTag, SumAfter, RangeTag;
    if blocks != [] {
      var rest := blocks[1..];
      assert forall i | 0 <= i < |rest| :: rest[i] == blocks[i + 1];
      RangedUrls(rest, SumAfter(blocks[0], total), eol, resolve);
      var r := RangedSegmentsOf(blocks, total, eol, resolve);
      assert Adjacent(blocks[0]) && r[1..] == RangedSegmentsOf(rest, SumAfter(blocks[0], total), eol, resolve);
    }
  }

  lemma {:induction false} MediaUrls(blocks: seq<Block>, next: int, eol: string)
    ensures var r := MediaSegmentsOf(blocks, next, eol);
            |r| == |blocks| && forall i | 0 <= i < |blocks| :: r[i].url == Trim(blocks[i].uri + eol)
  {
    hide Trim, EndOf, PendingOf;
    if blocks != [] {
      MediaUrls(blocks[1..], EndOf(blocks[0], next), eol);
    }
  }

  lemma HeaderIntroducesNothing(eol: string)
    requires Blank(eol)
    ensures !Introduces(EXTM3U + eol) && !Introduces("") && (EXTM3U + eol)[0] == '#'
  {
    assert EXTM3U[4] == 'M' && EXTINF[4] == 'I' && BYTERANGE[4] == '-' && STREAM_INF[4] == '-';
    assert (EXTM3U + eol)[4] == 'M' && (EXTM3U + eol)[0] == EXTM3U[0];
  }

  /** Without stray lines, the rewriter collects the segments whose URI follows EXTINF or BYTERANGE. */
  lemma RewriterCollects(blocks: seq<Block>, trailer: seq<Tag>, eol: string, resolve: string -> string)
    requires AllValid(blocks) && AllTagsValid(trailer) && Blank(eol) && NoStrays(blocks, trailer)
    ensures RewriteRun(REWRITE_START, Playlist(blocks, trailer, eol), resolve).segments ==
            RangedSegmentsOf(blocks, 0, eol, resolve)
  {
    hide RewriteStep, AllLines, TagLines, Introduces, Stray;
    var lines := Playlist(blocks, trailer, eol);
    HeaderIntroducesNothing(eol);
    TagRewrites(REWRITE_START, lines[0], resolve);
    var one := REWRITE_START.(lastLine := EXTM3U + eol);
    assert lines[1..] == AllLines(blocks, eol) + TagLines(trailer, eol);
    RewriterReadsBlocks(one, blocks, trailer, eol, resolve);
    assert RewriteRun(REWRITE_START, lines, resolve) == RewriteRun(one, lines[1..], resolve);
  }

  // ---------------------------------------------------------------------------------------
  // Stray lines

  lemma {:induction false} SegmentsGrow(st: RewriteState, lines: seq<string>, resolve: string -> string)
    ensures st.segments <= RewriteRun(st, lines, resolve).segments
    decreases |lines|
  {
    hide RangeAfter, Introduces;
    if lines != [] {
      SegmentsGrow(RewriteStep(st, lines[0], resolve), lines[1..], resolve);
    }
  }

  ghost predicate HasUrl(segments: seq<RangedSegment>, url: string) {
    exists i :: 0 <= i < |segments| && segments[i].url == url
  }

  /** The line after an introducing one is collected unless it starts with `#`. */
  lemma {:induction false} CollectedAfter(st: RewriteState, lines: seq<string>, k: nat, resolve: string -> string)
    requires k + 1 < |lines| && Introduces(lines[k]) && !("#" <= lines[k + 1])
    ensures HasUrl(RewriteRun(st, lines, resolve).segments, resolve(lines[k + 1]))
    decreases k
  {
    hide RangeAfter, Introduces;
    var one := RewriteStep(st, lines[0], resolve);
    if k == 0 {
      var two := RewriteStep(one, lines[1], resolve);
      assert lines[1..][1..] == lines[2..] && lines[1..][0] == lines[1];
      SegmentsGrow(two, lines[2..], resolve);
      assert two.segments[|two.segments| - 1].url == resolve(lines[1]);
      assert RewriteRun(st, lines, resolve) == RewriteRun(two, lines[2..], resolve);
      assert RewriteRun(st, lines, resolve).segments[|two.segments| - 1] == two.segments[|two.segments| - 1];
    } else {
      CollectedAfter(one, lines[1..], k - 1, resolve);
    }
  }

  ghost predicate Follows(lines: seq<string>, x: string, y: string) {
    exists k :: 0 <= k < |lines| - 1 && lines[k] == x && lines[k + 1] == y
  }

  lemma FollowsInJoin(a: seq<string>, lines: seq<string>, b: seq<string>, x: string, y: string)
    requires Follows(lines, x, y)
    ensures Follows(a + (lines + b), x, y)
  {
    var k :| 0 <= k < |lines| - 1 && lines[k] == x && lines[k + 1] == y;
    var all := a + (lines + b);
    assert all[|a| + k] == x && all[|a| + k + 1] == y;
  }

  lemma {:induction false} TagLinesAt(tags: seq<Tag>, eol: string, j: nat)
    requires j < |tags|
    ensures |TagLines(tags, eol)| == |tags| && TagLines(tags, eol)[j] == tags[j].Text() + eol
  {
    hide Tag.Text;
    var front := tags[..|tags| - 1];
    assert TagLines(tags, eol) == TagLines(front, eol) + [tags[|front|].Text() + eol];
    if j < |front| {
      TagLinesAt(front, eol, j);
    } else if front != [] {
      TagLinesAt(front, eol, 0);
    }
  }

  lemma TagIntroduces(t: Tag, eol: string)
    requires t.Valid() && Blank(eol) && t.MakesCollect()
    ensures Introduces(t.Text() + eol)
  {
    LastTagDecides(t, eol, 0);
  }

  lemma {:induction false} StrayFollows(tags: seq<Tag>, eol: string) returns (x: string, y: string)
    requires Stray(tags) && AllTagsValid(tags) && Blank(eol)
    ensures Introduces(x) && Blank(y) && Follows(TagLines(tags, eol), x, y)
  {
    var j :| 0 < j < |tags| && tags[j].Empty? && tags[j - 1].MakesCollect();
    assert tags[j].Valid() && tags[j - 1].Valid();
    x, y := tags[j - 1].Text() + eol, tags[j].blanks + eol;
    hide *;
    EmptyFollows(tags, eol, j);
  }

  lemma EmptyIsBlank(t: Tag)
    requires t.Empty? && t.Valid()
    ensures t.Text() == t.blanks && Blank(t.blanks)
  {
  }

  lemma {:induction false} EmptyFollows(tags: seq<Tag>, eol: string, j: nat)
    requires 0 < j < |tags| && tags[j].Empty? && tags[j].Valid() && tags[j - 1].Valid() && Blank(eol)
    requires tags[j - 1].MakesCollect()
    ensures Introduces(tags[j - 1].Text() + eol) && Blank(tags[j].blanks + eol)
    ensures Follows(TagLines(tags, eol), tags[j - 1].Text() + eol, tags[j].blanks + eol)
  {
    hide *;
    EmptyIsBlank(tags[j]);
    BlankJoins(tags[j].blanks, eol);
    TagIntroduces(tags[j - 1], eol);
    TagLinesAt(tags, eol, j - 1);
    TagLinesAt(tags, eol, j);
    FollowsAt(TagLines(tags, eol), j - 1);
  }

  lemma FollowsAt(lines: seq<string>, k: nat)
    requires k + 1 < |lines|
    ensures Follows(lines, lines[k], lines[k + 1])
  {
  }

  lemma {:induction false} StrayInBlocks(blocks: seq<Block>, eol: string, i: nat) returns (x: string, y: string)
    requires AllValid(blocks) && Blank(eol) && i < |blocks| && Stray(blocks[i].tags)
    ensures Introduces(x) && Blank(y) && Follows(AllLines(blocks, eol), x, y)
    decreases i
  {
    hide Introduces, TagLines, Stray, Follows, IsSpace;
    var b := blocks[0];
    var here, rest := TagLines(b.tags, eol), AllLines(blocks[1..], eol);
    if i == 0 {
      x, y := StrayFollows(b.tags, eol);
      FollowsInJoin([], here, [b.uri + eol] + rest, x, y);
      assert [] + (here + ([b.uri + eol] + rest)) == AllLines(blocks, eol);
    } else {
      x, y := StrayInBlocks(blocks[1..], eol, i - 1);
      FollowsInJoin(here + [b.uri + eol], rest, [], x, y);
      assert (here + [b.uri + eol]) + (rest + []) == AllLines(blocks, eol);
    }
  }

  /** A stray line is collected as a segment of its own, with an empty text. */
  lemma StrayIsCollected(blocks: seq<Block>, trailer: seq<Tag>, eol: string)
    requires AllValid(blocks) && AllTagsValid(trailer) && Blank(eol) && !NoStrays(blocks, trailer)
    ensures var segments := RewriteRun(REWRITE_START, Playlist(blocks, trailer, eol), LineText).segments;
            HasUrl(segments, "")
  {
    hide Introduces, TagLines, AllLines, Stray, RewriteRun;
    var lines := Playlist(blocks, trailer, eol);
    var x, y;
    if Stray(trailer) {
      x, y := StrayFollows(trailer, eol);
      FollowsInJoin([EXTM3U + eol] + AllLines(blocks, eol), TagLines(trailer, eol), [], x, y);
      assert ([EXTM3U + eol] + AllLines(blocks, eol)) + (TagLines(trailer, eol) + []) == lines;
    } else {
      var i :| 0 <= i < |blocks| && Stray(blocks[i].tags);
      x, y := StrayInBlocks(blocks, eol, i);
      FollowsInJoin([EXTM3U + eol], AllLines(blocks, eol), TagLines(trailer, eol), x, y);
    }
    var k :| 0 <= k < |lines| - 1 && lines[k] == x && lines[k + 1] == y;
    BlankIntroducesNothing(y);
    CollectedAfter(REWRITE_START, lines, k, LineText);
    TrimBlank(y);
  }

  // ---------------------------------------------------------------------------------------
  // Agreement

  /** The segments parse_media and the rewriter give for the text, by line and range. */
  ghost predicate Agree(blocks: seq<Block>, trailer: seq<Tag>, eol: string) {
    var lines := Playlist(blocks, trailer, eol);
    MediaItems(MediaRun(MEDIA_START, lines).segments) == RangedItems(RewriteRun(REWRITE_START, lines, LineText).segments)
  }

  /** On the text of any playlist whose BYTERANGE tags have positive lengths, the two readers give the
      same segments with the same ranges exactly when no blank line directly follows EXTINF or
      BYTERANGE, each URI directly follows its BYTERANGE tag, or an EXTINF tag when it has none, and
      each range without an offset starts where the lengths without offsets so far add up to. */
  lemma {:induction false} ReadersAgreeExactly(blocks: seq<Block>, trailer: seq<Tag>, eol: string)
    requires AllValid(blocks) && AllTagsValid(trailer) && Blank(eol)
    ensures Agree(blocks, trailer, eol) <==>
            NoStrays(blocks, trailer) && AllAdjacent(blocks) && Aligned(blocks, 0, None)
  {
    hide MediaRun, RewriteRun, Playlist, NoStrays, AllAdjacent, Aligned, MediaSegmentsOf, RangedSegmentsOf;
    MediaIs(blocks, trailer, eol);
    MediaUrls(blocks, 0, eol);
    var media := MediaSegmentsOf(blocks, 0, eol);
    if NoStrays(blocks, trailer) {
      RewriterCollects(blocks, trailer, eol, LineText);
      SameItemsExactly(blocks, eol);
    } else {
      StrayIsCollected(blocks, trailer, eol);
      forall i | 0 <= i < |blocks| ensures MediaItems(media)[i].0 != "" {
        UriTrims(blocks[i].uri, eol);
      }
      var segments := RewriteRun(REWRITE_START, Playlist(blocks, trailer, eol), LineText).segments;
      var i :| 0 <= i < |segments| && segments[i].url == "";
      assert RangedItems(segments)[i].0 == "";
    }
  }

  lemma {:induction false} SameItemsExactly(blocks: seq<Block>, eol: string)
    requires AllValid(blocks)
    ensures MediaItems(MediaSegmentsOf(blocks, 0, eol)) == RangedItems(RangedSegmentsOf(blocks, 0, eol, LineText))
            <==> AllAdjacent(blocks) && Aligned(blocks, 0, None)
  {
    hide Aligned, MediaSegmentsOf, RangedSegmentsOf, Trim, Tiled, Collected;
    var media, ranged := MediaSegmentsOf(blocks, 0, eol), RangedSegmentsOf(blocks, 0, eol, LineText);
    MediaSpansAreTiled(blocks, 0, eol);
    RangedSpansAreCollected(blocks, 0, eol, LineText);
    TiledIsCollectedExactly(blocks, 0, None);
    MediaUrls(blocks, 0, eol);
    assert Spans(MediaItems(media)) == MediaSpans(media);
    if AllAdjacent(blocks) && Aligned(blocks, 0, None) {
      RangedUrls(blocks, 0, eol, LineText);
      SameBySpans(MediaItems(media), RangedItems(ranged));
    }
  }

  lemma SameBySpans(a: seq<Item>, b: seq<Item>)
    requires Spans(a) == Spans(b) && |a| == |b| && forall i | 0 <= i < |a| :: a[i].0 == b[i].0
    ensures a == b
  {
    forall i | 0 <= i < |a| ensures a[i] == b[i] {
      assert Spans(a)[i] == Spans(b)[i];
    }
  }

  /** BYTERANGE before EXTINF: parse_media keeps the range, the rewriter loses it. */
  lemma TagOrderMatters(resolve: string -> string)
    ensures var lines := ["#EXTM3U", "#EXT-X-BYTERANGE:5@7", "#EXTINF:1", "s"];
            && MediaSpans(MediaRun(MEDIA_START, lines).segments) == [(7, Some(11))]
            && Spans(RangedItems(RewriteRun(REWRITE_START, lines, resolve).segments)) == [(0, None)]
  {
    hide MediaRun, RewriteRun, RangedSegmentsOf;
    var tags := [ByteRange(5, Some(7)), Inf(":1")];
    var blocks := [Block(tags, "s")];
    assert tags[..1] == [ByteRange(5, Some(7))] && tags[..1][..0] == [];
    assert ToText(5) == "5" && ToText(7) == "7";
    assert TagText(5, Some(7)) == "#EXT-X-BYTERANGE:5@7";
    assert TagLines(tags[..1], "") == TagLines([], "") + ["#EXT-X-BYTERANGE:5@7" + ""];
    assert EXTINF + ":1" == "#EXTINF:1" && tags[1].Text() + "" == "#EXTINF:1";
    assert TagLines(tags, "") == TagLines(tags[..1], "") + [tags[1].Text() + ""];
    assert TagLines([], "") == [] && AllLines([], "") == [] && blocks[1..] == [];
    assert "#EXT-X-BYTERANGE:5@7" + "" == "#EXT-X-BYTERANGE:5@7";
    assert TagLines(tags, "") == ["#EXT-X-BYTERANGE:5@7", "#EXTINF:1"];
    assert "s" + "" == "s" && EXTM3U + "" == "#EXTM3U";
    assert AllLines(blocks, "") == TagLines(tags, "") + (["s"] + AllLines(blocks[1..], ""));
    assert Playlist(blocks, [], "") == ["#EXTM3U", "#EXT-X-BYTERANGE:5@7", "#EXTINF:1", "s"];
    assert RangeTag(tags) == RangeTag(tags[..1]) == Some((5, Some(7)));
    assert Tiled(blocks, 0) == [SpanOf(blocks[0], 0)] + Tiled([], EndOf(blocks[0], 0));
    assert Collected(blocks, 0) == [(0, None)] + Collected([], 0);
    MediaTiles(blocks, [], "");
    RewriterCollects(blocks, [], "", resolve);
    RangedSpansAreCollected(blocks, 0, "", resolve);
  }

  // ---------------------------------------------------------------------------------------
  // Uniform playlists

  function LengthOf(b: Block): int { if RangeTag(b.tags).Some? then RangeTag(b.tags).value.0 else 0 }

  function TotalLength(blocks: seq<Block>): int {
    if blocks == [] then 0 else TotalLength(blocks[..|blocks| - 1]) + LengthOf(blocks[|blocks| - 1])
  }

  predicate AllSingle(blocks: seq<Block>) { forall i | 0 <= i < |blocks| :: SingleRange(blocks[i].tags) }

  lemma {:induction false} UniformIsAligned(blocks: seq<Block>, total: int, after: Option<int>)
    requires AllSingle(blocks)
    requires || (after == None && forall i | 0 <= i < |blocks| :: !Explicit(blocks[i]))
             || (forall i | 0 <= i < |blocks| :: !Implicit(blocks[i]))
    ensures Aligned(blocks, total, after)
  {
    hide RangeTag, Base, EndFrom, SingleRange;
    if blocks != [] {
      var b, next := blocks[0], if after.Some? then after.value else total;
      BaseOfSingle(b.tags, next);
      assert forall i | 0 <= i < |blocks[1..]| :: blocks[1..][i] == blocks[i + 1];
      if RangeTag(b.tags).None? {
        UniformIsAligned(blocks[1..], total, after);
      } else if Explicit(b) {
        UniformIsAligned(blocks[1..], total, Some(EndOf(b, next)));
      } else {
        assert Implicit(b);
        UniformIsAligned(blocks[1..], EndOf(b, total), None);
      }
    }
  }

  lemma {:induction false} ImplicitTiles(blocks: seq<Block>, next: int, i: nat)
    requires i < |blocks| && AllSingle(blocks) && forall j | 0 <= j < |blocks| :: Implicit(blocks[j])
    ensures |Tiled(blocks, next)| == |blocks|
    ensures var start := next + TotalLength(blocks[..i]);
            Tiled(blocks, next)[i] == (start, Some(start + LengthOf(blocks[i]) - 1))
  {
    hide RangeTag, Base, SingleRange;
    assert Implicit(blocks[0]);
    BaseOfSingle(blocks[0].tags, next);
    assert forall j | 0 <= j < |blocks[1..]| :: blocks[1..][j] == blocks[j + 1];
    if i > 0 {
      ImplicitTiles(blocks[1..], next + LengthOf(blocks[0]), i - 1);
      TotalOfTail(blocks[..i]);
      assert blocks[..i][1..] == blocks[1..][..i - 1];
    } else {
      assert blocks[..0] == [];
      if |blocks| > 1 {
        ImplicitTiles(blocks[1..], next + LengthOf(blocks[0]), 0);
      }
    }
  }

  lemma {:induction false} TotalOfTail(blocks: seq<Block>)
    requires blocks != []
    ensures TotalLength(blocks) == LengthOf(blocks[0]) + TotalLength(blocks[1..])
  {
    hide LengthOf;
    var m := |blocks| - 1;
    if m > 0 {
      TotalOfTail(blocks[..m]);
      assert blocks[..m][1..] == blocks[1..][..m - 1] && blocks[1..][m - 1] == blocks[m];
    }
  }

  /** One BYTERANGE tag at most and right before the URI, and either no range with an offset or none
      without: the readers agree.  When every segment has a range without an offset, segment i is
      [n_0 + … + n_(i-1), n_0 + … + n_i - 1]: no gap and no overlap. */
  lemma {:induction false} UniformPlaylistsAgree(blocks: seq<Block>, trailer: seq<Tag>, eol: string)
    requires AllValid(blocks) && AllTagsValid(trailer) && Blank(eol)
    requires NoStrays(blocks, trailer) && AllSingle(blocks) && AllAdjacent(blocks)
    requires || (forall i | 0 <= i < |blocks| :: !Explicit(blocks[i]))
             || (forall i | 0 <= i < |blocks| :: !Implicit(blocks[i]))
    ensures Agree(blocks, trailer, eol)
    ensures var spans := MediaSpans(MediaRun(MEDIA_START, Playlist(blocks, trailer, eol)).segments);
            && spans == RfcRanges(blocks, 0)
            && ((forall i | 0 <= i < |blocks| :: Implicit(blocks[i])) ==>
                  && |spans| == |blocks|
                  && forall i | 0 <= i < |blocks| ::
                       spans[i] == (TotalLength(blocks[..i]), Some(TotalLength(blocks[..i]) + LengthOf(blocks[i]) - 1)))
  {
    hide MediaRun, RewriteRun, Playlist, RangeTag, Adjacent, Aligned, SingleRange, Agree, NoStrays;
    UniformIsAligned(blocks, 0, None);
    ReadersAgreeExactly(blocks, trailer, eol);
    MediaTiles(blocks, trailer, eol);
    TiledIsRfc(blocks, 0);
    if forall i | 0 <= i < |blocks| :: Implicit(blocks[i]) {
      forall i | 0 <= i < |blocks| {
        ImplicitTiles(blocks, 0, i);
      }
    }
  }
}
