/** The page-wrapping scan of `ReadWindow.subText` (readwindow.py), stated as
    pure functions over the text, together with what it guarantees. The
    method in module Reader that walks the text is proved equal to `PageFrom`. */
module Pagination {

  /** Characters per line (`settingData.lineSize`) and lines per page
      (`settingData.textLine`). */
  datatype Layout = Layout(lineSize: int, textLine: int)

  /** What one call of subText returns: the page text and the mark it stopped at. */
  datatype Page = Page(text: seq<char>, next: nat)

  /** The scan's running state: column counter, line counter, text emitted so far. */
  datatype Cursor = Cursor(col: int, line: int, out: seq<char>)

  /** One character at offset i that is not a newline ending the text. */
  function Consume(t: seq<char>, i: nat, c: Cursor, lay: Layout): Cursor
    requires i < |t| && !(t[i] == '\n' && i + 1 == |t|)
  {
    if t[i] == '\n' then
      if t[i + 1] != '\n' then Cursor(0, c.line + 1, c.out + ['\n'])
      else c
    else if c.col + 1 >= lay.lineSize then Cursor(0, c.line + 1, c.out + [t[i]] + ['\n'])
    else Cursor(c.col + 1, c.line, c.out + [t[i]])
  }

  /** The scan from offset i with cursor c, until the text ends, a newline
      ends the text, or the line budget is spent. */
  function Scan(t: seq<char>, i: nat, c: Cursor, lay: Layout): Page
    decreases |t| - i
  {
    if i >= |t| then Page(c.out, i)
    else if t[i] == '\n' && i + 1 == |t| then Page(c.out + ['\n'], i)
    else
      var c' := Consume(t, i, c, lay);
      if c'.line >= lay.textLine then Page(c'.out, i + 1)
      else Scan(t, i + 1, c', lay)
  }

  /** The page that starts at `mark`. */
  function PageFrom(t: seq<char>, mark: nat, lay: Layout): Page
  {
    Scan(t, mark, Cursor(0, 0, []), lay)
  }

  /** The start mark of page p when pages are computed one after the other from offset 0. */
  ghost function StartOf(t: seq<char>, lay: Layout, p: nat): nat
  {
    if p == 0 then 0 else PageFrom(t, StartOf(t, lay, p - 1), lay).next
  }

  /** Page p of a sequential reading. */
  ghost function PageAt(t: seq<char>, lay: Layout, p: nat): Page
  {
    PageFrom(t, StartOf(t, lay, p), lay)
  }

  // ---------------------------------------------------------------------------
  // Measures on the emitted text

  function Last(s: seq<char>): char
    requires |s| > 0
  {
    s[|s| - 1]
  }

  /** Length of the newline-free run that ends the text (its current line). */
  function TrailRun(s: seq<char>): nat
  {
    if |s| == 0 || Last(s) == '\n' then 0 else TrailRun(s[..|s| - 1]) + 1
  }

  /** Length of the longest newline-free stretch of the text: its longest line. */
  function LongestLine(s: seq<char>): nat
  {
    if |s| == 0 then 0
    else
      var before := LongestLine(s[..|s| - 1]);
      if TrailRun(s) > before then TrailRun(s) else before
  }

  /** Number of newlines in the text. */
  function Newlines(s: seq<char>): nat
  {
    if |s| == 0 then 0 else Newlines(s[..|s| - 1]) + (if Last(s) == '\n' then 1 else 0)
  }

  /** The text with every newline removed. */
  function Visible(s: seq<char>): seq<char>
  {
    if |s| == 0 then [] else Visible(s[..|s| - 1]) + (if Last(s) == '\n' then [] else [Last(s)])
  }

  lemma {:induction false} VisibleAppend(a: seq<char>, b: seq<char>)
    ensures Visible(a + b) == Visible(a) + Visible(b)
    decreases |b|
  {
    if |b| == 0 {
      assert a + b == a;
    } else {
      var b' := b[..|b| - 1];
      assert (a + b)[..|a + b| - 1] == a + b';
      VisibleAppend(a, b');
    }
  }

  lemma {:induction false} AppendOne(s: seq<char>, x: char)
    ensures (s + [x])[..|s|] == s
    ensures TrailRun(s + [x]) == (if x == '\n' then 0 else TrailRun(s) + 1)
    ensures Newlines(s + [x]) == Newlines(s) + (if x == '\n' then 1 else 0)
    ensures Visible(s + [x]) == Visible(s) + (if x == '\n' then [] else [x])
    ensures LongestLine(s + [x]) == (if TrailRun(s + [x]) > LongestLine(s) then TrailRun(s + [x]) else LongestLine(s))
  {
    var s' := s + [x];
    assert s'[..|s'| - 1] == s;
    assert Last(s') == x;
  }

  /** Apart from newlines, consuming a character emits that character. */
  lemma ConsumeVisible(t: seq<char>, i: nat, c: Cursor, lay: Layout)
    requires i < |t| && !(t[i] == '\n' && i + 1 == |t|)
    ensures Visible(Consume(t, i, c, lay).out) == Visible(c.out) + Visible([t[i]])
  {
    if t[i] == '\n' {
      AppendOne(c.out, '\n');
    } else {
      AppendOne(c.out, t[i]);
      AppendOne(c.out + [t[i]], '\n');
    }
    assert Visible([t[i]]) == Visible([]) + (if t[i] == '\n' then [] else [t[i]]) by {
      assert [t[i]][..0] == [];
    }
  }

  // ---------------------------------------------------------------------------
  // Offsets

  /** The scan never moves backwards, never passes the end of the text, and
      keeps what it had already emitted. */
  lemma {:induction false} ScanBounds(t: seq<char>, i: nat, c: Cursor, lay: Layout)
    ensures var r := Scan(t, i, c, lay);
      (i >= |t| ==> r == Page(c.out, i)) &&
      (i < |t| ==> i <= r.next <= |t|) &&
      |c.out| <= |r.text| && r.text[..|c.out|] == c.out
    decreases |t| - i
  {
    if i < |t| && !(t[i] == '\n' && i + 1 == |t|) {
      var c' := Consume(t, i, c, lay);
      if c'.line < lay.textLine {
        ScanBounds(t, i + 1, c', lay);
      }
    }
  }

  /** From a mark at or past the end the page is empty and the mark stays;
      otherwise the returned mark lies between the mark and the end. */
  lemma PageFromBounds(t: seq<char>, mark: nat, lay: Layout)
    ensures mark >= |t| ==> PageFrom(t, mark, lay) == Page([], mark)
    ensures mark < |t| ==> mark <= PageFrom(t, mark, lay).next <= |t|
  {
    ScanBounds(t, mark, Cursor(0, 0, []), lay);
  }

  /** The only page that does not advance the mark is the one made of a
      newline that is the last character of the text. */
  lemma {:induction false} ScanStall(t: seq<char>, i: nat, c: Cursor, lay: Layout)
    requires i < |t|
    requires Scan(t, i, c, lay).next == i
    ensures i + 1 == |t| && t[i] == '\n' && Scan(t, i, c, lay).text == c.out + ['\n']
  {
    if !(t[i] == '\n' && i + 1 == |t|) {
      var c' := Consume(t, i, c, lay);
      if c'.line < lay.textLine {
        ScanBounds(t, i + 1, c', lay);
      }
    }
  }

  /** A page longer than one character starts inside the text and advances the mark. */
  lemma PageProgress(t: seq<char>, mark: nat, lay: Layout)
    requires |PageFrom(t, mark, lay).text| > 1
    ensures mark < |t| && mark < PageFrom(t, mark, lay).next <= |t|
  {
    PageFromBounds(t, mark, lay);
    if PageFrom(t, mark, lay).next == mark {
      ScanStall(t, mark, Cursor(0, 0, []), lay);
    }
  }

  /** With a line budget of at least one, a mark inside the text yields a nonempty page. */
  lemma {:induction false} ScanEmits(t: seq<char>, i: nat, c: Cursor, lay: Layout)
    requires i < |t| && c.line < lay.textLine
    ensures |Scan(t, i, c, lay).text| > |c.out|
    decreases |t| - i
  {
    if !(t[i] == '\n' && i + 1 == |t|) {
      var c' := Consume(t, i, c, lay);
      if c'.line < lay.textLine {
        if i + 1 < |t| {
          ScanEmits(t, i + 1, c', lay);
        }
        ScanBounds(t, i + 1, c', lay);
      }
    }
  }

  lemma PageNonempty(t: seq<char>, mark: nat, lay: Layout)
    requires lay.textLine >= 1
    ensures PageFrom(t, mark, lay).text == [] <==> mark >= |t|
  {
    if mark < |t| {
      ScanEmits(t, mark, Cursor(0, 0, []), lay);
    } else {
      PageFromBounds(t, mark, lay);
    }
  }

  // ---------------------------------------------------------------------------
  // Line width, line budget, content

  /** No line of the emitted text is longer than lineSize. */
  lemma {:induction false} ScanLineWidth(t: seq<char>, i: nat, c: Cursor, lay: Layout)
    requires lay.lineSize >= 1
    requires 0 <= c.col < lay.lineSize && TrailRun(c.out) == c.col
    requires LongestLine(c.out) <= lay.lineSize
    ensures LongestLine(Scan(t, i, c, lay).text) <= lay.lineSize
    decreases |t| - i
  {
    if i >= |t| {
    } else if t[i] == '\n' && i + 1 == |t| {
      AppendOne(c.out, '\n');
    } else {
      var c' := Consume(t, i, c, lay);
      ConsumeWidth(t, i, c, lay);
      if c'.line < lay.textLine {
        ScanLineWidth(t, i + 1, c', lay);
      }
    }
  }

  /** Consuming a character keeps the column counter equal to the length of
      the current line, below lineSize, and every line within lineSize. */
  lemma ConsumeWidth(t: seq<char>, i: nat, c: Cursor, lay: Layout)
    requires i < |t| && !(t[i] == '\n' && i + 1 == |t|)
    requires 0 <= c.col < lay.lineSize && TrailRun(c.out) == c.col
    requires LongestLine(c.out) <= lay.lineSize
    ensures var c' := Consume(t, i, c, lay);
      0 <= c'.col < lay.lineSize && TrailRun(c'.out) == c'.col && LongestLine(c'.out) <= lay.lineSize
  {
    if t[i] == '\n' {
      AppendOne(c.out, '\n');
    } else {
      AppendOne(c.out, t[i]);
      AppendOne(c.out + [t[i]], '\n');
    }
  }

  lemma PageLineWidth(t: seq<char>, mark: nat, lay: Layout)
    requires lay.lineSize >= 1
    ensures LongestLine(PageFrom(t, mark, lay).text) <= lay.lineSize
  {
    ScanLineWidth(t, mark, Cursor(0, 0, []), lay);
  }

  /** The page holds at most textLine newlines. When the scan stopped for
      lack of lines rather than at the end of the text, it holds exactly
      textLine, and the last of them ends the page: the scan stops as soon as
      the line budget is spent. */
  lemma {:induction false} ScanLineBudget(t: seq<char>, i: nat, c: Cursor, lay: Layout)
    requires 0 <= c.line < lay.textLine && Newlines(c.out) == c.line
    ensures var r := Scan(t, i, c, lay);
      Newlines(r.text) <= lay.textLine &&
      (r.next < |t| && !(r.next + 1 == |t| && t[r.next] == '\n') ==>
         Newlines(r.text) == lay.textLine && |r.text| > 0 && Last(r.text) == '\n')
    decreases |t| - i
  {
    if i >= |t| {
    } else if t[i] == '\n' && i + 1 == |t| {
      AppendOne(c.out, '\n');
    } else {
      var c' := Consume(t, i, c, lay);
      ConsumeLines(t, i, c, lay);
      if c'.line < lay.textLine {
        ScanLineBudget(t, i + 1, c', lay);
      }
    }
  }

  /** Consuming a character keeps the line counter equal to the number of
      newlines emitted, and adds at most one line. */
  lemma ConsumeLines(t: seq<char>, i: nat, c: Cursor, lay: Layout)
    requires i < |t| && !(t[i] == '\n' && i + 1 == |t|)
    requires Newlines(c.out) == c.line
    ensures var c' := Consume(t, i, c, lay);
      Newlines(c'.out) == c'.line && c.line <= c'.line <= c.line + 1
  {
    if t[i] == '\n' {
      AppendOne(c.out, '\n');
    } else {
      AppendOne(c.out, t[i]);
      AppendOne(c.out + [t[i]], '\n');
    }
  }

  lemma PageLineBudget(t: seq<char>, mark: nat, lay: Layout)
    requires lay.textLine >= 1
    ensures var r := PageFrom(t, mark, lay);
      Newlines(r.text) <= lay.textLine &&
      (r.next < |t| && !(r.next + 1 == |t| && t[r.next] == '\n') ==>
         Newlines(r.text) == lay.textLine && |r.text| > 0 && Last(r.text) == '\n')
  {
    ScanLineBudget(t, mark, Cursor(0, 0, []), lay);
  }

  /** Apart from newlines, the page is exactly the text between the two marks. */
  lemma {:induction false} ScanContent(t: seq<char>, i: nat, c: Cursor, lay: Layout)
    requires i <= |t|
    ensures var r := Scan(t, i, c, lay);
      i <= r.next <= |t| && Visible(r.text) == Visible(c.out) + Visible(t[i..r.next])
    decreases |t| - i
  {
    var r := Scan(t, i, c, lay);
    if i == |t| {
      assert t[i..r.next] == [];
    } else if t[i] == '\n' && i + 1 == |t| {
      AppendOne(c.out, '\n');
      assert t[i..r.next] == [];
    } else {
      var c' := Consume(t, i, c, lay);
      ConsumeVisible(t, i, c, lay);
      if c'.line >= lay.textLine {
        assert t[i..r.next] == [t[i]];
      } else {
        ScanContent(t, i + 1, c', lay);
        assert t[i..r.next] == [t[i]] + t[i + 1..r.next];
        VisibleAppend([t[i]], t[i + 1..r.next]);
      }
    }
  }

  lemma PageContent(t: seq<char>, mark: nat, lay: Layout)
    requires mark <= |t|
    ensures var r := PageFrom(t, mark, lay);
      mark <= r.next <= |t| && Visible(r.text) == Visible(t[mark..r.next])
  {
    ScanContent(t, mark, Cursor(0, 0, []), lay);
  }

  /** A newline followed by another newline is consumed without being emitted. */
  lemma DoubleNewlineDropped(t: seq<char>, mark: nat, lay: Layout)
    requires lay.textLine >= 1
    requires mark + 1 < |t| && t[mark] == '\n' && t[mark + 1] == '\n'
    ensures PageFrom(t, mark, lay) == PageFrom(t, mark + 1, lay)
  {
  }

  /** A newline that ends the text is emitted and leaves the mark on itself,
      so asking again from that mark yields the same one-newline page. */
  lemma FinalNewlineRepeats(t: seq<char>, lay: Layout)
    requires |t| > 0 && t[|t| - 1] == '\n'
    ensures PageFrom(t, |t| - 1, lay) == Page("\n", |t| - 1)
  {
  }

  /** Marks of a sequential reading stay within the text and never decrease. */
  lemma {:induction false} StartOfBounds(t: seq<char>, lay: Layout, p: nat)
    ensures StartOf(t, lay, p) <= |t|
    ensures StartOf(t, lay, p) <= StartOf(t, lay, p + 1)
  {
    if p > 0 {
      StartOfBounds(t, lay, p - 1);
      PageFromBounds(t, StartOf(t, lay, p - 1), lay);
    }
    PageFromBounds(t, StartOf(t, lay, p), lay);
  }
}
