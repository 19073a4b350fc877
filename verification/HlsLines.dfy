/** Splitting playlist bytes into lines. */
module HlsLines {
  import opened Wrappers

  const LF := '\n'
  const CR := '\r'

  /** Each byte is taken as the character of that number. */
  function Latin1(data: Bytes): string { seq(|data|, i requires 0 <= i < |data| => data[i] as int as char) }

  /** Every run of carriage returns shortened to one. */
  function Collapse(text: string): string {
    if text == [] then []
    else
      var rest, c := text[..|text| - 1], text[|text| - 1];
      if c == CR && EndsWith(rest, CR) then Collapse(rest) else Collapse(rest) + [c]
  }

  predicate EndsWith(text: string, c: char) { text != [] && text[|text| - 1] == c }

  function Unlines(lines: seq<string>): string {
    if lines == [] then [] else Unlines(lines[..|lines| - 1]) + lines[|lines| - 1] + [LF]
  }

  lemma UnlinesOneMore(lines: seq<string>, line: string)
    ensures Unlines(lines + [line]) == Unlines(lines) + line + [LF]
  {
    assert (lines + [line])[..|lines|] == lines;
  }

  /** The current line with the carriage return that was held back. */
  function Flushed(buffer: string, isCr: bool): string { if isCr then buffer + [CR] else buffer }

  /** What has been read so far: finished lines and the current one. */
  function Spelled(lines: seq<string>, current: string): string { Unlines(lines) + current }

  lemma SpellMore(lines: seq<string>, line: string, c: char)
    ensures Unlines(lines + [line]) == Spelled(lines, line) + [LF]
    ensures Spelled(lines + [line], "") == Spelled(lines, line) + [LF]
    ensures Spelled(lines, line + [c]) == Spelled(lines, line) + [c]
  {
    UnlinesOneMore(lines, line);
    assert Unlines(lines) + (line + [c]) == Unlines(lines) + line + [c];
  }

  predicate Single(lines: seq<string>) { forall k | 0 <= k < |lines| :: LF !in lines[k] }

  /** The state of the reader. */
  datatype Reader = Reader(lines: seq<string>, buffer: string, isCr: bool)
  {
    function Next(c: char): Reader {
      var line := Flushed(buffer, isCr);
      if c == LF then Reader(lines + [line], "", false)
      else if c == CR then Reader(lines, buffer, true)
      else Reader(lines, line + [c], false)
    }
  }

  ghost predicate Reads(r: Reader, text: string) {
    && Spelled(r.lines, Flushed(r.buffer, r.isCr)) == Collapse(text)
    && (r.isCr <==> EndsWith(text, CR))
    && (Flushed(r.buffer, r.isCr) == "" <==> text == [] || EndsWith(text, LF))
    && LF !in r.buffer && Single(r.lines)
  }

  lemma NextReads(r: Reader, text: string, c: char)
    requires Reads(r, text)
    ensures Reads(r.Next(c), text + [c])
  {
    hide Spelled, Unlines;
    var line := Flushed(r.buffer, r.isCr);
    SpellMore(r.lines, line, c);
    assert (text + [c])[..|text|] == text;
  }

  lemma StartReads()
    ensures Reads(Reader([], "", false), [])
  {
  }

  lemma EndReads(r: Reader, text: string)
    requires Reads(r, text)
    ensures var line := Flushed(r.buffer, r.isCr);
            var lines := if line != "" then r.lines + [line] else r.lines;
            && Unlines(lines) == Collapse(text) + (if text == [] || EndsWith(text, LF) then [] else [LF])
            && Single(lines)
  {
    assert Spelled(r.lines, "") == Unlines(r.lines);
    hide Spelled, Collapse, EndsWith, Unlines;
    SpellMore(r.lines, Flushed(r.buffer, r.isCr), LF);
    assert Collapse(text) + [] == Collapse(text);
  }

  lemma Latin1Prefix(data: Bytes, i: nat)
    requires i < |data|
    ensures Latin1(data[..i + 1]) == Latin1(data[..i]) + [data[i] as int as char]
  {
  }

  /** Nothing but repeated carriage returns is lost: the lines, each with a line feed, spell the
      input out again, with a last line feed added when a non-empty input had none; and a line
      feed never ends up inside a line. */
  method ReadLines(data: Bytes) returns (lines: seq<string>)
    ensures var text := Latin1(data);
            Unlines(lines) == Collapse(text) + if text == [] || EndsWith(text, LF) then [] else [LF]
    ensures Single(lines)
  {
    var buffer, isCr := "", false;
    lines := [];
    assert Latin1(data[..0]) == [];
    StartReads();
    hide Reads, Collapse, Unlines, Single, EndsWith, Latin1;
    for i := 0 to |data|
      invariant Reads(Reader(lines, buffer, isCr), Latin1(data[..i]))
    {
      var c := data[i] as int as char;
      NextReads(Reader(lines, buffer, isCr), Latin1(data[..i]), c);
      Latin1Prefix(data, i);
      if c == LF {
        if isCr {
          buffer, isCr := buffer + [CR], false;
        }
        lines, buffer := lines + [buffer], "";
      } else if c == CR {
        isCr := true;
      } else {
        if isCr {
          buffer, isCr := buffer + [CR], false;
        }
        buffer := buffer + [c];
      }
    }
    assert data[..|data|] == data;
    EndReads(Reader(lines, buffer, isCr), Latin1(data));
    if buffer != "" || isCr {
      if isCr {
        buffer := buffer + [CR];
      }
      lines := lines + [buffer];
    }
  }

  /** The lines are determined by that: no other list of lines spells out the same text. */
  lemma {:induction false} LinesAreDetermined(a: seq<string>, b: seq<string>)
    requires Single(a) && Single(b)
    requires Unlines(a) == Unlines(b)
    ensures a == b
  {
    if a != [] && b != [] {
      var m, n := |a| - 1, |b| - 1;
      var x, y := Unlines(a[..m]), Unlines(b[..n]);
      LastLine(a[..m], a[m], b[..n], b[n]);
      LinesAreDetermined(a[..m], b[..n]);
      assert a == a[..m] + [a[m]] && b == b[..n] + [b[n]];
    }
  }

  lemma UnlinesEnds(lines: seq<string>)
    ensures Unlines(lines) == [] || EndsWith(Unlines(lines), LF)
  {
  }

  lemma NoLonger(x: string, s: string, y: string, t: string)
    requires x + s == y + t && LF !in s && (y == [] || EndsWith(y, LF))
    ensures |y| <= |x|
  {
    assert forall j | |x| <= j < |x + s| :: (x + s)[j] == s[j - |x|] && s[j - |x|] in s;
    assert y != [] ==> (y + t)[|y| - 1] == LF;
  }

  lemma LastLine(a: seq<string>, s: string, b: seq<string>, t: string)
    requires LF !in s && LF !in t
    requires Unlines(a) + s + [LF] == Unlines(b) + t + [LF]
    ensures s == t && Unlines(a) == Unlines(b)
  {
    var x, y := Unlines(a), Unlines(b);
    UnlinesEnds(a);
    UnlinesEnds(b);
    assert (x + s + [LF])[..|x + s|] == x + s && (y + t + [LF])[..|y + t|] == y + t;
    NoLonger(x, s, y, t);
    NoLonger(y, t, x, s);
    assert (x + s)[..|x|] == x && (y + t)[..|y|] == y;
    assert (x + s)[|x|..] == s && (y + t)[|y|..] == t;
  }
}
