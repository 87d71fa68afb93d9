/** The chapter index of `ReadWindow.getChapter` (readwindow.py:308-323):
    lines of each page are stripped and tested against the heading pattern;
    a heading maps to the page it was last seen on. */
module Chapters {
  import opened Pagination

  // ---------------------------------------------------------------------------
  // Lines and stripping

  /** Python's whitespace characters (the set `str.strip()` removes). */
  predicate IsSpace(c: char)
  {
    c == ' ' || ('\t' <= c <= '\r') || ('\U{1c}' <= c <= '\U{1f}') ||
    c == '\U{85}' || c == '\U{a0}' || c == '\U{1680}' || ('\U{2000}' <= c <= '\U{200a}') ||
    c == '\U{2028}' || c == '\U{2029}' || c == '\U{202f}' || c == '\U{205f}' || c == '\U{3000}'
  }

  function TrimStart(s: seq<char>): (r: seq<char>)
    ensures |r| <= |s|
  {
    if |s| > 0 && IsSpace(s[0]) then TrimStart(s[1..]) else s
  }

  function TrimEnd(s: seq<char>): (r: seq<char>)
    ensures |r| <= |s|
  {
    if |s| > 0 && IsSpace(s[|s| - 1]) then TrimEnd(s[..|s| - 1]) else s
  }

  /** `str.strip()`: whitespace removed at both ends. */
  function Strip(s: seq<char>): seq<char>
  {
    TrimEnd(TrimStart(s))
  }

  /** `str.splitlines()` for '\n' line ends: a final newline does not start an
      empty last line, and the empty text has no lines. */
  function SplitLines(s: seq<char>): seq<seq<char>>
  {
    if |s| == 0 then []
    else if s[0] == '\n' then [[]] + SplitLines(s[1..])
    else
      var rest := SplitLines(s[1..]);
      if rest == [] then [[s[0]]] else [[s[0]] + rest[0]] + rest[1..]
  }

  // ---------------------------------------------------------------------------
  // The heading pattern  第 [一-龥a-zA-Z0-9]{1,7} [章|节] .{0,20} (\n|$)

  /** A character of the class [一-龥a-zA-Z0-9]. */
  predicate IsWordChar(c: char)
  {
    ('\U{4e00}' <= c <= '\U{9fa5}') || ('a' <= c <= 'z') || ('A' <= c <= 'Z') || ('0' <= c <= '9')
  }

  /** A character of the class [章|节], which includes the bar. */
  predicate IsSectionMark(c: char)
  {
    c == '章' || c == '|' || c == '节'
  }

  /** The pattern matched with the word run of length k. */
  predicate HeadingWith(l: seq<char>, k: int)
  {
    1 <= k <= 7 && k + 2 <= |l| && l[0] == '第' &&
    (forall j :: 1 <= j <= k ==> IsWordChar(l[j])) &&
    IsSectionMark(l[k + 1]) &&
    |l| - (k + 2) <= 20 && (forall j :: k + 2 <= j < |l| ==> l[j] != '\n')
  }

  /** `re.match(pattern, l)` on a stripped line: some length of the word run
      lets the rest of the pattern match (the section marks are themselves word
      characters, so the matcher may backtrack into the run). */
  predicate IsHeading(l: seq<char>)
  {
    exists k :: 1 <= k <= 7 && HeadingWith(l, k)
  }

  /** A heading is between 3 and 29 characters long and starts with 第. */
  lemma HeadingShape(l: seq<char>)
    requires IsHeading(l)
    ensures 3 <= |l| <= 29 && l[0] == '第'
  {
  }

  /** The split is not unique: 第一章二章 matches with a run of one and of three. */
  lemma HeadingSplitNotUnique()
    ensures HeadingWith("第一章二章", 1) && HeadingWith("第一章二章", 3)
    ensures IsHeading("第一章二章")
  {
    assert HeadingWith("第一章二章", 1);
  }

  /** Examples: the bar counts as a section mark; an empty run, a run of eight
      and a tail of 21 characters do not match. */
  lemma HeadingExamples()
    ensures IsHeading("第12章 开端")
    ensures IsHeading("第三|")
    ensures !IsHeading("第章")
    ensures !IsHeading("第一二三四五六七八章")
    ensures !IsHeading("第1章" + "abcdefghijklmnopqrstu")
  {
    assert HeadingWith("第12章 开端", 2);
    assert HeadingWith("第三|", 1);
    var long := "第一二三四五六七八章";
    forall k | 1 <= k <= 7 ensures !HeadingWith(long, k) {
      assert IsWordChar(long[k + 1]);
    }
    var tail := "第1章" + "abcdefghijklmnopqrstu";
    forall k | 1 <= k <= 7 ensures !HeadingWith(tail, k) {
      if k > 1 { assert !IsSectionMark(tail[k + 1]); }
    }
  }

  // ---------------------------------------------------------------------------
  // The index

  /** Some line of `lines`, once stripped, is the heading k. */
  predicate HasHeading(lines: seq<seq<char>>, k: seq<char>)
  {
    |lines| > 0 && (HasHeading(lines[..|lines| - 1], k) || (Strip(lines[|lines| - 1]) == k && IsHeading(k)))
  }

  /** The inner loop of getChapter: each stripped line that is a heading is
      mapped to `page`. */
  function AddHeadings(acc: map<seq<char>, nat>, lines: seq<seq<char>>, page: nat): map<seq<char>, nat>
  {
    if |lines| == 0 then acc
    else
      var a := AddHeadings(acc, lines[..|lines| - 1], page);
      var l := Strip(lines[|lines| - 1]);
      if IsHeading(l) then a[l := page] else a
  }

  /** Adding the headings of one page: the page's headings map to it, every
      other key keeps its earlier page. */
  lemma {:induction false} AddHeadingsSpec(acc: map<seq<char>, nat>, lines: seq<seq<char>>, page: nat)
    ensures var r := AddHeadings(acc, lines, page);
      (forall k :: k in r <==> k in acc || HasHeading(lines, k)) &&
      (forall k :: HasHeading(lines, k) ==> r[k] == page) &&
      (forall k :: k in acc && !HasHeading(lines, k) ==> r[k] == acc[k])
  {
    if |lines| > 0 {
      AddHeadingsSpec(acc, lines[..|lines| - 1], page);
    }
  }

  /** The outer loop of getChapter from the page starting at `start`, numbered
      `page`; it stops at the first page of at most one character. */
  function IndexFrom(t: seq<char>, lay: Layout, start: nat, page: nat, acc: map<seq<char>, nat>): map<seq<char>, nat>
    decreases |t| - start
  {
    var p := PageFrom(t, start, lay);
    if |p.text| <= 1 then acc
    else
      PageProgress(t, start, lay);
      IndexFrom(t, lay, p.next, page + 1, AddHeadings(acc, SplitLines(p.text), page))
  }

  /** What getChapter returns for the text. */
  function ChapterIndex(t: seq<char>, lay: Layout): map<seq<char>, nat>
  {
    IndexFrom(t, lay, 0, 0, map[])
  }

  /** Pages 0..n-1 of a sequential reading are all longer than one character,
      so getChapter looks at every one of them. */
  ghost predicate Scanned(t: seq<char>, lay: Layout, n: nat)
  {
    forall q: nat :: q < n ==> |PageAt(t, lay, q).text| > 1
  }

  ghost predicate IndexSound(t: seq<char>, lay: Layout, acc: map<seq<char>, nat>)
  {
    forall k :: k in acc ==> Scanned(t, lay, acc[k] + 1) && HasHeading(SplitLines(PageAt(t, lay, acc[k]).text), k)
  }

  ghost predicate IndexComplete(t: seq<char>, lay: Layout, acc: map<seq<char>, nat>, page: nat)
  {
    forall q: nat, k :: q < page && HasHeading(SplitLines(PageAt(t, lay, q).text), k) ==> k in acc && acc[k] >= q
  }

  lemma ScannedNext(t: seq<char>, lay: Layout, page: nat)
    requires Scanned(t, lay, page) && |PageAt(t, lay, page).text| > 1
    ensures Scanned(t, lay, page + 1)
  {
    forall q: nat | q < page + 1 ensures |PageAt(t, lay, q).text| > 1 {
      if q < page { assert |PageAt(t, lay, q).text| > 1; }
    }
  }

  /** Adding the headings of a scanned page keeps every key attributed to a
      scanned page that holds it. */
  lemma IndexSoundNext(t: seq<char>, lay: Layout, page: nat, acc: map<seq<char>, nat>)
    requires Scanned(t, lay, page + 1) && IndexSound(t, lay, acc)
    ensures IndexSound(t, lay, AddHeadings(acc, SplitLines(PageAt(t, lay, page).text), page))
  {
    var lines := SplitLines(PageAt(t, lay, page).text);
    var acc' := AddHeadings(acc, lines, page);
    AddHeadingsSpec(acc, lines, page);
    forall k | k in acc'
      ensures Scanned(t, lay, acc'[k] + 1) && HasHeading(SplitLines(PageAt(t, lay, acc'[k]).text), k)
    {
      if !HasHeading(lines, k) {
        assert k in acc;
      }
    }
  }

  /** Adding the headings of page `page` keeps every heading of pages up to it
      recorded at that page or later. */
  lemma IndexCompleteNext(t: seq<char>, lay: Layout, page: nat, acc: map<seq<char>, nat>)
    requires IndexComplete(t, lay, acc, page)
    ensures IndexComplete(t, lay, AddHeadings(acc, SplitLines(PageAt(t, lay, page).text), page), page + 1)
  {
    var lines := SplitLines(PageAt(t, lay, page).text);
    var acc' := AddHeadings(acc, lines, page);
    AddHeadingsSpec(acc, lines, page);
    forall q: nat, k | q < page + 1 && HasHeading(SplitLines(PageAt(t, lay, q).text), k)
      ensures k in acc' && acc'[k] >= q
    {
      if q < page && !HasHeading(lines, k) {
        assert k in acc && acc[k] >= q;
      }
    }
  }

  /** When getChapter stops at page `page`, every page it scanned lies before it. */
  lemma IndexCompleteAtStop(t: seq<char>, lay: Layout, page: nat, acc: map<seq<char>, nat>)
    requires IndexComplete(t, lay, acc, page) && |PageAt(t, lay, page).text| <= 1
    ensures forall q: nat, k :: Scanned(t, lay, q + 1) && HasHeading(SplitLines(PageAt(t, lay, q).text), k) ==> k in acc && acc[k] >= q
  {
    forall q: nat, k | Scanned(t, lay, q + 1) && HasHeading(SplitLines(PageAt(t, lay, q).text), k)
      ensures k in acc && acc[k] >= q
    {
      if q >= page {
        assert false;
      }
    }
  }

  lemma {:induction false} IndexFromSpec(t: seq<char>, lay: Layout, page: nat, acc: map<seq<char>, nat>)
    requires Scanned(t, lay, page)
    requires IndexSound(t, lay, acc) && IndexComplete(t, lay, acc, page)
    ensures var r := IndexFrom(t, lay, StartOf(t, lay, page), page, acc);
      IndexSound(t, lay, r) &&
      forall q: nat, k :: Scanned(t, lay, q + 1) && HasHeading(SplitLines(PageAt(t, lay, q).text), k) ==> k in r && r[k] >= q
    decreases |t| - StartOf(t, lay, page)
  {
    var start := StartOf(t, lay, page);
    var p := PageFrom(t, start, lay);
    assert p == PageAt(t, lay, page);
    if |p.text| <= 1 {
      IndexCompleteAtStop(t, lay, page, acc);
    } else {
      PageProgress(t, start, lay);
      ScannedNext(t, lay, page);
      IndexSoundNext(t, lay, page, acc);
      IndexCompleteNext(t, lay, page, acc);
      assert StartOf(t, lay, page + 1) == p.next;
      IndexFromSpec(t, lay, page + 1, AddHeadings(acc, SplitLines(p.text), page));
    }
  }

  /** The index maps exactly the headings of the pages getChapter scans, each to
      the last such page that holds it: every key is a heading found on its page,
      every page before it was scanned, and no later scanned page holds it. */
  lemma ChapterIndexSpec(t: seq<char>, lay: Layout)
    ensures var r := ChapterIndex(t, lay);
      (forall k :: k in r ==>
         IsHeading(k) && Scanned(t, lay, r[k] + 1) && HasHeading(SplitLines(PageAt(t, lay, r[k]).text), k)) &&
      (forall q: nat, k :: Scanned(t, lay, q + 1) && HasHeading(SplitLines(PageAt(t, lay, q).text), k) ==>
         k in r && r[k] >= q)
  {
    IndexFromSpec(t, lay, 0, map[]);
    var r := ChapterIndex(t, lay);
    forall k | k in r ensures IsHeading(k) {
      HasHeadingIsHeading(SplitLines(PageAt(t, lay, r[k]).text), k);
    }
  }

  lemma {:induction false} HasHeadingIsHeading(lines: seq<seq<char>>, k: seq<char>)
    requires HasHeading(lines, k)
    ensures IsHeading(k)
  {
    if !(Strip(lines[|lines| - 1]) == k && IsHeading(k)) {
      HasHeadingIsHeading(lines[..|lines| - 1], k);
    }
  }
}
