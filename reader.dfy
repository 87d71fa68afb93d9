/** The reading window of readwindow.py: the shared settings object, the
    encoding trial of `readText`, and the `ReadWindow` operations that page
    through the text with a ring of recent page marks. */
module Reader {
  import opened Wrappers
  import opened Pagination
  import opened Chapters

  // ---------------------------------------------------------------------------
  // readText

  /** The encodings readText tries, in its order. */
  datatype Encoding = Utf8 | Windows1252 | Ansi | Gbk | Iso8859_1 | Big5

  const Encodings: seq<Encoding> := [Utf8, Windows1252, Ansi, Gbk, Iso8859_1, Big5]

  /** What opening and reading the file with one encoding does: it yields the
      text, raises UnicodeDecodeError or LookupError (caught: the next encoding
      is tried), or raises any other error (which propagates). */
  datatype Attempt = Decoded(text: seq<char>) | Undecodable | Failed

  /** NoEncoding is the IOError raised after every encoding failed to decode;
      OpenFailed stands for an error that escapes the loop. */
  datatype ReadError = NoEncoding | OpenFailed

  /** The outcome of trying the encodings in order. */
  function FirstDecoding(encs: seq<Encoding>, attempt: Encoding -> Attempt): Result<seq<char>, ReadError>
  {
    if |encs| == 0 then Err(NoEncoding)
    else match attempt(encs[0])
      case Decoded(text) => Ok(text)
      case Undecodable => FirstDecoding(encs[1..], attempt)
      case Failed => Err(OpenFailed)
  }

  /** The first encoding that does not fail to decode decides the outcome;
      when all fail to decode, the error is NoEncoding. */
  lemma {:induction false} FirstDecodingSpec(encs: seq<Encoding>, attempt: Encoding -> Attempt, i: nat)
    requires i <= |encs|
    requires forall j :: 0 <= j < i ==> attempt(encs[j]).Undecodable?
    requires i < |encs| ==> !attempt(encs[i]).Undecodable?
    ensures FirstDecoding(encs, attempt) ==
      if i == |encs| then Err(NoEncoding)
      else if attempt(encs[i]).Decoded? then Ok(attempt(encs[i]).text)
      else Err(OpenFailed)
  {
    if i > 0 {
      FirstDecodingSpec(encs[1..], attempt, i - 1);
    }
  }

  // ---------------------------------------------------------------------------
  // The shared settings object

  class Settings {
    var currentPage: int
    var lastPage: int
    var pageSize: int
    /** The ring of page marks, indexed by page number modulo pageSize. */
    var pages: array<nat>
    var lineSize: int
    var textLine: int
    var filePath: seq<char>

    ghost predicate Valid()
      reads this
    {
      pageSize >= 1 && pages.Length == pageSize && currentPage >= 0 && lastPage >= 0
    }

    constructor (pageSize: int, lineSize: int, textLine: int)
      requires pageSize >= 1
      ensures Valid() && fresh(pages)
      ensures this.pageSize == pageSize && this.lineSize == lineSize && this.textLine == textLine
      ensures currentPage == 0 && lastPage == 0 && filePath == []
      ensures forall j :: 0 <= j < pageSize ==> pages[j] == 0
    {
      this.pageSize := pageSize;
      this.lineSize := lineSize;
      this.textLine := textLine;
      currentPage, lastPage, filePath := 0, 0, [];
      pages := new nat[pageSize](_ => 0);
    }
  }

  /** readText: a new path resets the reading position and the ring; then the
      encodings are tried in order. */
  method ReadText(s: Settings, fileName: seq<char>, attempt: Encoding -> Attempt)
    returns (r: Result<seq<char>, ReadError>)
    requires s.Valid()
    modifies s
    ensures s.Valid() && r == FirstDecoding(Encodings, attempt)
    ensures s.filePath == fileName && s.pageSize == old(s.pageSize)
    ensures s.lineSize == old(s.lineSize) && s.textLine == old(s.textLine)
    ensures old(s.filePath) == fileName ==>
      s.currentPage == old(s.currentPage) && s.lastPage == old(s.lastPage) && s.pages == old(s.pages)
    ensures old(s.filePath) != fileName ==>
      s.currentPage == 0 && s.lastPage == 0 && fresh(s.pages) &&
      forall j :: 0 <= j < s.pageSize ==> s.pages[j] == 0
  {
    if s.filePath != fileName {
      s.currentPage := 0;
      s.lastPage := 0;
      s.pages := new nat[s.pageSize](_ => 0);
    }
    s.filePath := fileName;
    var i := 0;
    while i < |Encodings|
      invariant 0 <= i <= |Encodings|
      invariant FirstDecoding(Encodings[i..], attempt) == FirstDecoding(Encodings, attempt)
    {
      var a := attempt(Encodings[i]);
      match a {
        case Decoded(text) =>
          return Ok(text);
        case Failed =>
          return Err(OpenFailed);
        case Undecodable =>
      }
      assert Encodings[i..][1..] == Encodings[i + 1..];
      i := i + 1;
    }
    r := Err(NoEncoding);
  }

  lemma MulSign(k: int, z: int)
    requires k >= 1
    ensures z <= 0 ==> k * z <= 0
    ensures z >= 1 ==> k * z >= k
  {
  }

  lemma ModSmall(i: nat, k: nat)
    requires i < k
    ensures i % k == i
  {
  }

  /** Pages a and b less than k apart use distinct ring slots. */
  lemma ModDistinct(a: nat, b: nat, k: nat)
    requires k >= 1 && a < b < a + k
    ensures a % k != b % k
  {
    var qa, qb := a / k, b / k;
    var ra, rb := a % k, b % k;
    assert a == k * qa + ra;
    assert b == k * qb + rb;
    if ra == rb {
      assert b - a == k * qb - k * qa;
      assert k * qb - k * qa == k * (qb - qa);
      MulSign(k, qb - qa);
    }
  }

  /** The ring holds, for each of the |ring| pages q in [hi - |ring|, hi), the
      start mark of page q of a sequential reading, in slot q % |ring|. */
  ghost predicate RingHolds(ring: seq<nat>, t: seq<char>, lay: Layout, hi: int)
  {
    |ring| >= 1 &&
    forall q: nat :: hi - |ring| <= q < hi ==> ring[q % |ring|] == StartOf(t, lay, q)
  }

  /** Storing page i's start mark in its slot moves the window up by one page. */
  lemma RingWrite(ring: seq<nat>, t: seq<char>, lay: Layout, i: nat)
    requires RingHolds(ring, t, lay, i)
    ensures RingHolds(ring[i % |ring| := StartOf(t, lay, i)], t, lay, i + 1)
  {
    var k := |ring|;
    var ring' := ring[i % k := StartOf(t, lay, i)];
    forall q: nat | i + 1 - k <= q < i + 1
      ensures ring'[q % k] == StartOf(t, lay, q)
    {
      if q < i {
        ModDistinct(q, i, k);
      }
    }
  }

  // ---------------------------------------------------------------------------
  // The reading window

  class ReadWindow {
    const settings: Settings
    var textContent: seq<char>
    /** The page on display (`self.text`), None after a failed roll. */
    var text: Option<seq<char>>

    constructor (settings: Settings, textContent: seq<char>)
      ensures this.settings == settings && this.textContent == textContent && text == None
    {
      this.settings := settings;
      this.textContent := textContent;
      text := None;
    }

    function Lay(): Layout
      reads this, settings
    {
      Layout(settings.lineSize, settings.textLine)
    }

    /** The ring holds the start mark of each of the pageSize pages up to and
        including lastPage, as sequential paging from offset 0 computes it. */
    ghost predicate Coherent()
      reads this, settings, settings.pages
    {
      settings.Valid() && RingHolds(settings.pages[..], textContent, Lay(), settings.lastPage + 1)
    }

    /** subText: build one page from `mark`. */
    method SubText(mark: nat) returns (str: seq<char>, next: nat)
      ensures Page(str, next) == PageFrom(textContent, mark, Lay())
    {
      var t := textContent;
      var lay := Lay();
      var count, line := 0, 0;
      str := [];
      next := mark;
      while next < |t|
        invariant Scan(t, next, Cursor(count, line, str), lay) == PageFrom(t, mark, lay)
        decreases |t| - next
      {
        var c := t[next];
        if c == '\n' {
          if next + 1 < |t| {
            if t[next + 1] != '\n' {
              str := str + [c];
              count := 0;
              line := line + 1;
            }
          } else {
            str := str + [c];
            return;
          }
        } else {
          str := str + [c];
          count := count + 1;
          if count >= settings.lineSize {
            str := str + ['\n'];
            count := 0;
            line := line + 1;
          }
        }
        next := next + 1;
        if line >= settings.textLine {
          return;
        }
      }
    }

    /** rollPage: show `page`, computing it forward from the ring slot of
        `page` or revisiting a page still in the ring. */
    method RollPage(page: int) returns (r: Option<Page>)
      requires settings.Valid()
      modifies settings, settings.pages
      ensures settings.Valid() && settings.pages == old(settings.pages)
      ensures settings.pageSize == old(settings.pageSize) && settings.filePath == old(settings.filePath)
      ensures settings.lineSize == old(settings.lineSize) && settings.textLine == old(settings.textLine)
      ensures page < 0 ==> r == None && unchanged(settings, settings.pages)
      ensures page >= 0 && page >= old(settings.lastPage) ==>
        var p := PageFrom(textContent, old(settings.pages[page % settings.pageSize]), Lay());
        if p.text == [] then r == None && unchanged(settings, settings.pages)
        else
          r == Some(p) && settings.currentPage == page &&
          settings.lastPage == old(settings.lastPage) + 1 &&
          settings.pages[..] == old(settings.pages[..])[(page + 1) % settings.pageSize := p.next]
      ensures 0 <= page < old(settings.lastPage) ==>
        if old(settings.lastPage) - page < settings.pageSize then
          r == Some(PageFrom(textContent, settings.pages[page % settings.pageSize], Lay())) &&
          settings.currentPage == page && settings.lastPage == old(settings.lastPage) &&
          unchanged(settings.pages)
        else r == None && unchanged(settings, settings.pages)
      ensures old(Coherent()) && 0 <= page <= old(settings.lastPage) ==>
        Coherent() && (r.Some? ==> r.value == PageAt(textContent, Lay(), page))
      ensures old(Coherent()) && page == old(settings.lastPage) && settings.textLine >= 1 ==>
        (r == None <==> StartOf(textContent, Lay(), page) >= |textContent|)
    {
      if page < 0 {
        return None;
      }
      var k := settings.pageSize;
      var pageOffset := page - settings.lastPage;
      if pageOffset >= 0 {
        var txt, nextMark := SubText(settings.pages[page % k]);
        if settings.textLine >= 1 {
          PageNonempty(textContent, settings.pages[page % k], Lay());
        }
        if |txt| == 0 {
          return None;
        }
        ghost var was := settings.pages[..];
        ghost var wasCoherent := Coherent();
        settings.currentPage := page;
        settings.pages[(page + 1) % k] := nextMark;
        settings.lastPage := settings.lastPage + 1;
        r := Some(Page(txt, nextMark));
        if wasCoherent && page == settings.lastPage - 1 {
          assert settings.pages[..] == was[(page + 1) % k := StartOf(textContent, Lay(), page + 1)];
          RingWrite(was, textContent, Lay(), page + 1);
        }
      } else {
        if -pageOffset < k {
          settings.currentPage := page;
          var txt, nextMark := SubText(settings.pages[page % k]);
          r := Some(Page(txt, nextMark));
        } else {
          r := None;
        }
      }
    }

    /** The page shown when the window opens and after a layout change:
        `self.text, _ = self.rollPage(settingData.currentPage)`. The roll's
        result is returned; the current page stays, and the roll's forward
        or backward effect on the last page and the ring is the one RollPage
        states for it. */
    method ShowCurrentPage() returns (r: Option<Page>)
      requires settings.Valid()
      modifies this, settings, settings.pages
      ensures text == (if r.Some? then Some(r.value.text) else None) && textContent == old(textContent)
      ensures settings.Valid() && settings.pages == old(settings.pages)
      ensures settings.pageSize == old(settings.pageSize) && settings.filePath == old(settings.filePath)
      ensures settings.lineSize == old(settings.lineSize) && settings.textLine == old(settings.textLine)
      ensures settings.currentPage == old(settings.currentPage)
      ensures settings.currentPage >= old(settings.lastPage) ==>
        var p := PageFrom(textContent, old(settings.pages[settings.currentPage % settings.pageSize]), Lay());
        if p.text == [] then r == None && settings.lastPage == old(settings.lastPage) && unchanged(settings.pages)
        else
          r == Some(p) && settings.lastPage == old(settings.lastPage) + 1 &&
          settings.pages[..] == old(settings.pages[..])[(settings.currentPage + 1) % settings.pageSize := p.next]
      ensures settings.currentPage < old(settings.lastPage) ==>
        settings.lastPage == old(settings.lastPage) && unchanged(settings.pages) &&
        r == if old(settings.lastPage) - settings.currentPage < settings.pageSize
             then Some(PageFrom(textContent, settings.pages[settings.currentPage % settings.pageSize], Lay()))
             else None
      ensures old(Coherent()) && old(settings.currentPage) <= old(settings.lastPage) ==>
        Coherent() && (r.Some? ==> r.value == PageAt(textContent, Lay(), settings.currentPage))
    {
      r := RollPage(settings.currentPage);
      text := if r.Some? then Some(r.value.text) else None;
    }

    /** updateTextLayout, given the line width and line count the window's
        size now allows (each at least 1): a change of either is stored and
        the current page is rolled again under the new layout, from the mark
        the ring holds for it. */
    method UpdateTextLayout(newLineSize: int, newTextLine: int)
      requires settings.Valid() && newLineSize >= 1 && newTextLine >= 1
      modifies this, settings, settings.pages
      ensures settings.Valid() && settings.pages == old(settings.pages) && textContent == old(textContent)
      ensures settings.lineSize == newLineSize && settings.textLine == newTextLine
      ensures settings.pageSize == old(settings.pageSize) && settings.filePath == old(settings.filePath)
      ensures settings.currentPage == old(settings.currentPage)
      ensures old(settings.lineSize) == newLineSize && old(settings.textLine) == newTextLine ==>
        unchanged(this, settings, settings.pages)
      ensures (old(settings.lineSize) != newLineSize || old(settings.textLine) != newTextLine) &&
              settings.currentPage >= old(settings.lastPage) ==>
        var p := PageFrom(textContent, old(settings.pages[settings.currentPage % settings.pageSize]), Lay());
        if p.text == [] then text == None && settings.lastPage == old(settings.lastPage) && unchanged(settings.pages)
        else
          text == Some(p.text) && settings.lastPage == old(settings.lastPage) + 1 &&
          settings.pages[..] == old(settings.pages[..])[(settings.currentPage + 1) % settings.pageSize := p.next]
      ensures (old(settings.lineSize) != newLineSize || old(settings.textLine) != newTextLine) &&
              settings.currentPage < old(settings.lastPage) ==>
        settings.lastPage == old(settings.lastPage) && unchanged(settings.pages) &&
        text == if old(settings.lastPage) - settings.currentPage < settings.pageSize
                then Some(PageFrom(textContent, settings.pages[settings.currentPage % settings.pageSize], Lay()).text)
                else None
    {
      if newLineSize != settings.lineSize || newTextLine != settings.textLine {
        settings.lineSize := newLineSize;
        settings.textLine := newTextLine;
        var _ := ShowCurrentPage();
      }
    }

    /** getChapter: replay subText from offset 0 and index the headings,
        without touching the shared settings. */
    method GetChapter() returns (chapter: map<seq<char>, nat>)
      ensures chapter == ChapterIndex(textContent, Lay())
    {
      chapter := map[];
      var page: nat := 0;
      var mark: nat := 0;
      ghost var start: nat := 0;
      var temp;
      temp, mark := SubText(mark);
      while |temp| > 1
        invariant Page(temp, mark) == PageFrom(textContent, start, Lay())
        invariant IndexFrom(textContent, Lay(), start, page, chapter) == ChapterIndex(textContent, Lay())
        decreases |textContent| - start
      {
        PageProgress(textContent, start, Lay());
        var lines := SplitLines(temp);
        ghost var before := chapter;
        var i := 0;
        while i < |lines|
          invariant 0 <= i <= |lines|
          invariant chapter == AddHeadings(before, lines[..i], page)
        {
          var line := Strip(lines[i]);
          if IsHeading(line) {
            chapter := chapter[line := page];
          }
          assert lines[..i + 1][..i] == lines[..i];
          i := i + 1;
        }
        assert lines[..|lines|] == lines;
        page := page + 1;
        start := mark;
        temp, mark := SubText(mark);
      }
    }

    /** The loop of jumpToChapter: page i's start mark goes to slot
        i % pageSize for i in 0..target, then the end mark of page target to
        slot (target + 1) % pageSize; returns page target's text. The ring then
        holds pages (target + 1 - pageSize, target + 1]; slots above
        target + 1 are not written. */
    method ReplayTo(target: nat) returns (txt: seq<char>)
      requires settings.Valid()
      modifies settings.pages
      ensures txt == PageAt(textContent, Lay(), target).text
      ensures RingHolds(settings.pages[..], textContent, Lay(), target + 2)
      ensures forall j :: target + 1 < j < settings.pageSize ==> settings.pages[j] == old(settings.pages[j])
    {
      var k := settings.pageSize;
      var mark: nat := 0;
      txt := [];
      var i: nat := 0;
      while i < target + 1
        invariant 0 <= i <= target + 1
        invariant mark == StartOf(textContent, Lay(), i)
        invariant i > 0 ==> txt == PageAt(textContent, Lay(), i - 1).text
        invariant RingHolds(settings.pages[..], textContent, Lay(), i)
        invariant forall j :: i <= j < k ==> settings.pages[j] == old(settings.pages[j])
      {
        StoreStart(i, mark);
        var nm;
        txt, nm := SubText(mark);
        mark := nm;
        i := i + 1;
      }
      StoreStart(target + 1, mark);
    }

    /** One store of the replay: page i's start mark goes to slot
        i % pageSize, which moves the ring's window up to page i. */
    method StoreStart(i: nat, mark: nat)
      requires settings.Valid() && mark == StartOf(textContent, Lay(), i)
      requires RingHolds(settings.pages[..], textContent, Lay(), i)
      modifies settings.pages
      ensures RingHolds(settings.pages[..], textContent, Lay(), i + 1)
      ensures forall j :: i < j < settings.pageSize ==> settings.pages[j] == old(settings.pages[j])
    {
      var k := settings.pageSize;
      ghost var was := settings.pages[..];
      if i < k {
        ModSmall(i, k);
      }
      settings.pages[i % k] := mark;
      assert settings.pages[..] == was[i % k := mark];
      RingWrite(was, textContent, Lay(), i);
    }

    /** jumpToChapter as written: the ring is rebuilt up to the heading's page,
        which becomes both the current and the last page. The slot of page
        target + 1 - pageSize then holds the mark of page target + 1. */
    method JumpToChapter(heading: seq<char>, chapter: map<seq<char>, nat>)
      requires settings.Valid() && heading in chapter
      modifies this, settings, settings.pages
      ensures settings.Valid() && settings.pages == old(settings.pages) && textContent == old(textContent)
      ensures settings.pageSize == old(settings.pageSize) && settings.filePath == old(settings.filePath)
      ensures settings.lineSize == old(settings.lineSize) && settings.textLine == old(settings.textLine)
      ensures settings.currentPage == chapter[heading] && settings.lastPage == chapter[heading]
      ensures text == Some(PageAt(textContent, Lay(), chapter[heading]).text)
      ensures RingHolds(settings.pages[..], textContent, Lay(), chapter[heading] + 2)
      ensures forall j :: chapter[heading] + 1 < j < settings.pageSize ==> settings.pages[j] == old(settings.pages[j])
    {
      var page := chapter[heading];
      settings.currentPage := page;
      settings.lastPage := page;
      var txt := ReplayTo(page);
      text := Some(txt);
    }

    /** jumpToChapter with the last computed page set to target + 1, the page
        whose mark the replay stored last: the ring is then coherent. */
    method JumpToChapterFixed(heading: seq<char>, chapter: map<seq<char>, nat>)
      requires settings.Valid() && heading in chapter
      modifies this, settings, settings.pages
      ensures settings.Valid() && settings.pages == old(settings.pages) && textContent == old(textContent)
      ensures settings.pageSize == old(settings.pageSize) && settings.filePath == old(settings.filePath)
      ensures settings.lineSize == old(settings.lineSize) && settings.textLine == old(settings.textLine)
      ensures settings.currentPage == chapter[heading] && settings.lastPage == chapter[heading] + 1
      ensures text == Some(PageAt(textContent, Lay(), chapter[heading]).text)
      ensures Coherent()
    {
      var page := chapter[heading];
      settings.currentPage := page;
      settings.lastPage := page + 1;
      var txt := ReplayTo(page);
      text := Some(txt);
    }
  }

  // ---------------------------------------------------------------------------
  // Uses of the window

  /** Sequential use: after a reset, forward rolls of pages 0..n-1 followed by a
      roll of the last page rolled to, or of one of the pageSize - 2 pages
      before it, show that page exactly as sequential paging computes it. */
  method RevisitAfterSequentialPaging(w: ReadWindow, n: nat, p: nat) returns (shown: Option<Page>)
    requires w.settings.Valid() && w.settings.textLine >= 1
    requires w.settings.lastPage == 0 && w.settings.pages[0] == 0
    requires forall q: nat :: q < n ==> StartOf(w.textContent, w.Lay(), q) < |w.textContent|
    requires n - w.settings.pageSize < p < n
    modifies w.settings, w.settings.pages
    ensures shown == Some(PageAt(w.textContent, w.Lay(), p))
  {
    assert w.Coherent();
    var i: nat := 0;
    while i < n
      invariant i <= n && w.Coherent() && w.settings.lastPage == i
      invariant w.settings.pages == old(w.settings.pages)
      invariant w.settings.textLine >= 1 && w.settings.pageSize == old(w.settings.pageSize)
      invariant w.Lay() == old(w.Lay())
    {
      var r := w.RollPage(i);
      i := i + 1;
    }
    shown := w.RollPage(p);
  }

  /** Finding, as written: with a ring of two pages, one character per line and
      one line per page, jumping to page 1 of "abc" and stepping back to page 0
      shows page 2 ("c\n"), while page 0 is "a\n". */
  method JumpThenBackAsWritten() returns (shown: Option<Page>)
    ensures shown == Some(Page("c\n", 3))
    ensures PageAt("abc", Layout(1, 1), 0) == Page("a\n", 1)
  {
    var lay := Layout(1, 1);
    assert PageFrom("abc", 0, lay) == Page("a\n", 1);
    assert PageFrom("abc", 1, lay) == Page("b\n", 2);
    assert PageFrom("abc", 2, lay) == Page("c\n", 3);
    assert StartOf("abc", lay, 2) == 2;
    var s := new Settings(2, 1, 1);
    var w := new ReadWindow(s, "abc");
    w.JumpToChapter("第1章", map["第1章" := 1]);
    assert w.settings.pages[2 % 2] == 2;
    shown := w.RollPage(0);
  }

  /** Finding, corrected: after the same jump, page 1 is shown again on the way
      back and page 0, which has left the ring, is refused. */
  method JumpThenBackFixed() returns (prev: Option<Page>, back: Option<Page>)
    ensures prev == Some(Page("b\n", 2))
    ensures back == None
  {
    var lay := Layout(1, 1);
    assert PageFrom("abc", 0, lay) == Page("a\n", 1);
    assert PageFrom("abc", 1, lay) == Page("b\n", 2);
    assert StartOf("abc", lay, 1) == 1;
    var s := new Settings(2, 1, 1);
    var w := new ReadWindow(s, "abc");
    w.JumpToChapterFixed("第1章", map["第1章" := 1]);
    prev := w.RollPage(1);
    back := w.RollPage(0);
  }
}
