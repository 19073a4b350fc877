/** The `Range` header the pool sends, and the parser the proxy reads such headers with. */
module RangeHeader {
  import opened Wrappers
  import opened Decimal
  import opened RangeResponse
  import opened Text

  type Headers = map<string, string>

  // ---------------------------------------------------------------------------------------
  // The parser

  function ParseRangeHeader(value: string): (r: Option<RangeSpec>)
    ensures r.Some? ==> ValidSpec(r.value)
  {
    var v := Trim(value);
    if v == [] then None
    else
      var stripped := StripPrefix(v, "bytes=");
      var parts := SplitOnce(if stripped.Some? then Trim(stripped.value) else v, '-');
      if parts.None? then None
      else
        var start := ParseI64(Trim(parts.value.0));
        if start.None? || start.value < 0 then None
        else
          var endText := Trim(parts.value.1);
          if endText == [] then Some(RangeSpec(start.value, None))
          else
            var end := ParseI64(endText);
            if end.None? || end.value < start.value then None else Some(RangeSpec(start.value, end))
  }

  /** parse_range_from_headers: any header whose name is `Range` up to case. */
  ghost predicate ReadsRange(headers: Headers, r: Option<RangeSpec>) {
    if exists k :: k in headers && Lower(k) == "range"
    then exists k :: k in headers && Lower(k) == "range" && r == ParseRangeHeader(headers[k])
    else r == None
  }

  // ---------------------------------------------------------------------------------------
  // The printer

  function RangeText(start: int, cached: int, end: Option<int>): string {
    var head := if start > 0 || cached > 0 then "bytes=" + ToText(start + cached) + "-" else "";
    if end.None? then head
    else (if head == "" then "bytes=0-" else head) + ToText(end.value)
  }

  function UserHeaders(user: Option<Headers>): Headers {
    if user.None? then map[]
    else map k | k in user.value && Lower(k) != "host" && Lower(k) != "range" :: user.value[k]
  }

  /** download_header. */
  function DownloadHeader(start: int, cached: int, end: Option<int>, user: Option<Headers>): Headers {
    var range := RangeText(start, cached, end);
    (if range == "" then map[] else map["Range" := range]) + UserHeaders(user)
  }

  // ---------------------------------------------------------------------------------------
  // What the parser accepts

  predicate Trimmed(s: string) { s == "" || (!IsSpace(s[0]) && !IsSpace(s[|s| - 1])) }

  /** What two numbers around a dash come to. */
  function ReadAs(first: string, last: string): Option<RangeSpec> {
    var start, end := ParseI64(first), ParseI64(last);
    if start.None? || start.value < 0 then None
    else if last == "" then Some(RangeSpec(start.value, None))
    else if end.None? || end.value < start.value then None
    else Some(RangeSpec(start.value, end))
  }

  lemma NoDashInBlanks(s: string)
    requires Blank(s)
    ensures '-' !in s
  {
    assert !IsSpace('-');
  }

  /** Blanks between the numbers and the dash. */
  function Around(first: string, b: string, c: string, last: string): string {
    (if first == "" then "" else first + b) + "-" + (if last == "" then "" else c + last)
  }

  lemma AroundIsTrimmed(first: string, b: string, c: string, last: string)
    requires Trimmed(first) && Trimmed(last)
    ensures Around(first, b, c, last) != "" && Trimmed(Around(first, b, c, last))
    ensures Around(first, b, c, last)[0] == if first == "" then '-' else first[0]
  {
    assert !IsSpace('-');
    hide IsSpace;
    var text := Around(first, b, c, last);
    assert text[0] == if first == "" then '-' else first[0];
    assert text[|text| - 1] == if last == "" then '-' else last[|last| - 1];
  }

  lemma AroundIsRead(first: string, b: string, c: string, last: string)
    requires Trimmed(first) && Trimmed(last) && '-' !in first && Blank(b) && Blank(c)
    ensures var parts := SplitOnce(Around(first, b, c, last), '-');
            parts.Some? && Trim(parts.value.0) == first && Trim(parts.value.1) == last
  {
    hide IsSpace, Trim;
    NoDashInBlanks(b);
    var head, tail := if first == "" then "" else first + b, if last == "" then "" else c + last;
    SplitAtFirst(head, '-', tail);
    TrimsBlanks("", first, if first == "" then "" else b);
    TrimsBlanks(if last == "" then "" else c, last, "");
    assert head == "" + first + (if first == "" then "" else b);
    assert tail == (if last == "" then "" else c) + last + "";
  }

  /** The text with its unit, or without. */
  function WithUnit(unit: bool, blanks: string, inner: string): string {
    if unit then "bytes=" + blanks + inner else inner
  }

  lemma WithBytes(blanks: string, inner: string)
    requires inner != "" && !IsSpace(inner[|inner| - 1])
    ensures var text := "bytes=" + blanks + inner;
            Trimmed(text) && StripPrefix(text, "bytes=") == Some(blanks + inner)
  {
    assert !IsSpace('b');
    hide IsSpace;
    var text, tail := "bytes=" + blanks + inner, blanks + inner;
    assert text == "bytes=" + tail;
    assert text[0] == 'b' && text[|text| - 1] == inner[|inner| - 1];
    assert text[6..] == tail;
  }

  lemma WithoutBytes(inner: string)
    requires inner != "" && inner[0] != 'b'
    ensures StripPrefix(inner, "bytes=") == None
  {
    assert "bytes="[0] == 'b';
  }

  lemma {:induction false} UnitIsRead(before: string, unit: bool, blanks: string, inner: string, after: string)
    requires Blank(before) && Blank(blanks) && Blank(after)
    requires Trimmed(inner) && inner != "" && inner[0] != 'b'
    ensures var v := Trim(before + WithUnit(unit, blanks, inner) + after);
            && v != []
            && (if StripPrefix(v, "bytes=").Some? then Trim(StripPrefix(v, "bytes=").value) else v) == inner
  {
    hide IsSpace, Trim, StripPrefix;
    var text := WithUnit(unit, blanks, inner);
    if unit {
      WithBytes(blanks, inner);
    } else {
      WithoutBytes(inner);
    }
    TrimsBlanks(before, text, after);
    TrimsBlanks(blanks, inner, "");
    assert blanks + inner + "" == blanks + inner;
  }

  /** The parser finds the two numbers with blanks anywhere around them and with or without the unit; a
      missing last number leaves the range open, and anything else is rejected: a missing first number, as
      in a suffix range, an end before the start, and what is no number. */
  lemma {:induction false} ReadsLoosely(before: string, unit: bool, blanks: string, first: string, b: string,
                                        c: string, last: string, after: string)
    requires Blank(before) && Blank(blanks) && Blank(b) && Blank(c) && Blank(after)
    requires Trimmed(first) && Trimmed(last) && '-' !in first && (first != "" ==> first[0] != 'b')
    ensures ParseRangeHeader(before + WithUnit(unit, blanks, Around(first, b, c, last)) + after) == ReadAs(first, last)
  {
    assert ParseI64("").None?;
    hide Trim, IsSpace, ParseI64, StripPrefix, Around, WithUnit;
    AroundIsTrimmed(first, b, c, last);
    UnitIsRead(before, unit, blanks, Around(first, b, c, last), after);
    AroundIsRead(first, b, c, last);
  }

  /** And a text without a dash is rejected. */
  lemma DashIsNeeded(value: string)
    requires '-' !in value
    ensures ParseRangeHeader(value) == None
  {
    TrimIsPart(value);
    var v := Trim(value);
    NoSplit(v, '-');
    if "bytes=" <= v {
      TrimIsPart(v[6..]);
      NoSplit(Trim(v[6..]), '-');
    }
  }

  lemma {:induction false} NoSplit(s: string, c: char)
    requires c !in s
    ensures SplitOnce(s, c).None?
  {
    if s != "" {
      NoSplit(s[1..], c);
    }
  }

  lemma {:induction false} TrimIsPart(s: string)
    ensures forall c | c in Trim(s) :: c in s
  {
    StartIsPart(s);
    EndIsPart(TrimStart(s));
  }

  lemma {:induction false} StartIsPart(s: string)
    ensures forall c | c in TrimStart(s) :: c in s
  {
    if s != "" && IsSpace(s[0]) {
      StartIsPart(s[1..]);
    }
  }

  lemma {:induction false} EndIsPart(s: string)
    ensures forall c | c in TrimEnd(s) :: c in s
  {
    if s != "" && IsSpace(s[|s| - 1]) {
      EndIsPart(s[..|s| - 1]);
    }
  }

  // ---------------------------------------------------------------------------------------
  // They undo each other

  lemma DigitsAreNoSpace(n: int)
    ensures Trim(ToText(n)) == ToText(n)
  {
    var s := ToText(n);
    assert s[0] in s;
    TrimmedAlready(s);
  }

  /** What the parser makes of `bytes=<from>-<tail>`, for a tail that needs no trimming. */
  lemma ParsesAsWritten(from: nat, tail: string)
    requires InI64(from) && Trim(tail) == tail && (tail != [] ==> !IsSpace(tail[|tail| - 1]))
    ensures ParseRangeHeader("bytes=" + ToText(from) + "-" + tail) ==
            if tail == [] then Some(RangeSpec(from, None))
            else
              var end := ParseI64(tail);
              if end.None? || end.value < from then None else Some(RangeSpec(from, end))
  {
    var digits := ToText(from);
    var inner := digits + "-" + tail;
    var value := "bytes=" + digits + "-" + tail;
    assert value == "bytes=" + inner;
    assert inner[|inner| - 1] == value[|value| - 1] == if tail == [] then '-' else tail[|tail| - 1];
    assert digits[0] in digits && inner[0] == digits[0] && value[0] == 'b';
    TrimmedAlready(value);
    TrimmedAlready(inner);
    assert value[6..] == inner && "bytes=" <= value;
    SplitAtFirst(digits, '-', tail);
    DigitsAreNoSpace(from);
    ParseToText(from);
  }

  lemma RangeTextIs(start: nat, cached: nat, end: Option<int>)
    requires start + cached > 0 || end.Some?
    ensures RangeText(start, cached, end) ==
            "bytes=" + ToText(start + cached) + "-" + (if end.Some? then ToText(end.value) else "")
    ensures RangeText(start, cached, end) != ""
  {
    var zero, one := "bytes=0-", "bytes=";
    assert ToText(0) == "0";
    hide ToText;
    assert zero == one + "0" + "-";
    if end.None? {
      assert one + ToText(start + cached) + "-" + "" == one + ToText(start + cached) + "-";
    }
  }

  lemma TailIsTrimmed(end: Option<int>)
    ensures var tail := if end.Some? then ToText(end.value) else "";
            Trim(tail) == tail && (tail != "" ==> !IsSpace(tail[|tail| - 1]))
  {
    if end.Some? {
      DigitsAreNoSpace(end.value);
    }
  }

  lemma {:induction false} RangeTextParses(start: nat, cached: nat, end: Option<int>)
    requires InI64(start + cached) && (end.Some? ==> InI64(end.value))
    requires start + cached > 0 || end.Some?
    ensures RangeText(start, cached, end) != ""
    ensures ParseRangeHeader(RangeText(start, cached, end)) ==
            if end.Some? && end.value < start + cached then None else Some(RangeSpec(start + cached, end))
  {
    hide ParseRangeHeader, ParseI64, Trim, IsSpace, RangeText;
    var tail := if end.Some? then ToText(end.value) else "";
    RangeTextIs(start, cached, end);
    TailIsTrimmed(end);
    ParsesAsWritten(start + cached, tail);
    if end.Some? {
      ParseToText(end.value);
    }
  }

  /** Nothing is sent but the range, under that very name, and the user's headers other than Host and Range. */
  lemma SentHeadersAre(start: int, cached: int, end: Option<int>, user: Option<Headers>, name: string)
    ensures var sent := DownloadHeader(start, cached, end, user);
            name in sent <==>
            || (name == "Range" && RangeText(start, cached, end) != "")
            || (user.Some? && name in user.value && Lower(name) != "host" && Lower(name) != "range")
    ensures var sent := DownloadHeader(start, cached, end, user);
            name in sent ==> sent[name] == if name == "Range" then RangeText(start, cached, end) else user.value[name]
  {
    assert Lower("Range") == "range";
    hide RangeText, Lower;
  }

  /** With `Range` the only name of its kind, that header is what is read. */
  lemma ReadsThatOne(headers: Headers, r: Option<RangeSpec>)
    requires ReadsRange(headers, r) && forall k | k in headers && Lower(k) == "range" :: k == "Range"
    ensures r == if "Range" in headers then ParseRangeHeader(headers["Range"]) else None
  {
    assert Lower("Range") == "range";
    hide ParseRangeHeader, Lower;
  }

  /** The header sent for a task is absent exactly when the whole file is wanted from its first
      byte; otherwise the proxy's own parser reads from it the first missing byte and the task's
      end, and rejects it exactly when that end lies before the first missing byte.  User headers
      change nothing, and come through unless named Host or Range. */
  lemma {:induction false} SentRangeIsRead(start: nat, cached: nat, end: Option<int>, user: Option<Headers>,
                                           r: Option<RangeSpec>)
    requires InI64(start + cached) && (end.Some? ==> InI64(end.value))
    requires ReadsRange(DownloadHeader(start, cached, end, user), r)
    ensures var sent := DownloadHeader(start, cached, end, user);
            && ((forall k | k in sent :: Lower(k) != "range") <==> start == 0 && cached == 0 && end == None)
            && r == (if start == 0 && cached == 0 && end == None then None
                     else if end.Some? && end.value < start + cached then None
                     else Some(RangeSpec(start + cached, end)))
            && (user.Some? ==> forall k | k in user.value ::
                  (k in sent && sent[k] == user.value[k]) || Lower(k) == "host" || Lower(k) == "range")
  {
    var sent := DownloadHeader(start, cached, end, user);
    hide ParseRangeHeader, UserHeaders, DownloadHeader, ReadsRange;
    if start + cached > 0 || end.Some? {
      RangeTextParses(start, cached, end);
    }
    assert RangeText(start, cached, end) == "" <==> start + cached == 0 && end == None;
    assert Lower("Range") == "range";
    hide RangeText, Lower;
    forall k | k in sent ensures Lower(k) == "range" ==> k == "Range" {
      SentHeadersAre(start, cached, end, user, k);
    }
    SentHeadersAre(start, cached, end, user, "Range");
    ReadsThatOne(sent, r);
    if user.Some? {
      forall k | k in user.value && Lower(k) != "host" && Lower(k) != "range"
        ensures k in sent && sent[k] == user.value[k]
      {
        SentHeadersAre(start, cached, end, user, k);
      }
    }
  }
}
