/**
 The pages of a chapter: `get_chapter_pages` as a filter and sort over the page
 records, `format_chapter_content`, and the chapter and page outputs of
 `create_chapter_files`.

 A page's `content` and `paranum` are text columns; the empty string stands for both
 an empty and a missing value, since the builder only tests them for truth.
 */
module ChapterPages {
  import opened TextUtil
  import opened Conversion
  import opened Books
  import opened ChapterToc

  /** A row of the `pages` table. */
  datatype Page = Page(id: int, bookId: string, page: int, content: string, paranum: string)

  /** The query of `get_chapter_pages`: the book's pages from `start` on, and below `stop`
      when there is one. */
  predicate InChapter(p: Page, bookId: string, start: int, stop: Option<int>)
  {
    p.bookId == bookId && start <= p.page && (stop.None? || p.page < stop.value)
  }

  /** The rows that satisfy the query, in table order. */
  function Select(db: seq<Page>, bookId: string, start: int, stop: Option<int>): (r: seq<Page>)
    ensures forall p :: multiset(r)[p] == (if InChapter(p, bookId, start, stop) then multiset(db)[p] else 0)
    decreases |db|
  {
    if db == [] then []
    else
      var rest := Select(db[1..], bookId, start, stop);
      assert db == [db[0]] + db[1..];
      if InChapter(db[0], bookId, start, stop) then [db[0]] + rest else rest
  }

  predicate SortedByPage(s: seq<Page>)
  {
    forall i, j :: 0 <= i < j < |s| ==> s[i].page <= s[j].page
  }

  /** A page in front of a sorted run that starts no lower keeps it sorted. */
  lemma SortedCons(a: Page, s: seq<Page>)
    requires SortedByPage(s) && (s == [] || a.page <= s[0].page)
    ensures SortedByPage([a] + s)
  {
    var r := [a] + s;
    forall i, j | 0 <= i < j < |r|
      ensures r[i].page <= r[j].page
    {
      if i == 0 {
        assert r[j] == s[j - 1];
        assert s[0].page <= s[j - 1].page;
      } else {
        assert r[i] == s[i - 1] && r[j] == s[j - 1];
      }
    }
  }

  /** Places `x` after every page with a smaller or equal number. */
  function Insert(x: Page, s: seq<Page>): (r: seq<Page>)
    requires SortedByPage(s)
    ensures multiset(r) == multiset(s) + multiset{x}
    ensures SortedByPage(r)
    ensures |r| == |s| + 1
    ensures r[0] == x || (s != [] && r[0] == s[0])
    decreases |s|
  {
    if s == [] then [x]
    else if x.page < s[0].page then
      SortedCons(x, s);
      [x] + s
    else
      var rest := Insert(x, s[1..]);
      assert |s| > 1 ==> s[0].page <= s[1].page;
      SortedCons(s[0], rest);
      InsertedBehind(s, rest, x);
      [s[0]] + rest
  }

  /** The head in front of the tail with `x` inserted holds the list plus `x`. */
  lemma InsertedBehind(s: seq<Page>, rest: seq<Page>, x: Page)
    requires s != [] && multiset(rest) == multiset(s[1..]) + multiset{x}
    ensures multiset([s[0]] + rest) == multiset(s) + multiset{x}
  {
    assert s == [s[0]] + s[1..];
  }

  /** `orderby=pages.page`: the same pages in ascending page order. */
  function SortByPage(s: seq<Page>): (r: seq<Page>)
    ensures multiset(r) == multiset(s)
    ensures SortedByPage(r)
    decreases |s|
  {
    if s == [] then []
    else
      assert s == [s[0]] + s[1..];
      Insert(s[0], SortByPage(s[1..]))
  }

  /** `get_chapter_pages`: exactly the book's pages in the range, each as often as in the
      table, in ascending page order. */
  function GetChapterPages(db: seq<Page>, bookId: string, start: int, stop: Option<int>): (r: seq<Page>)
    ensures SortedByPage(r)
    ensures forall p :: multiset(r)[p] == (if InChapter(p, bookId, start, stop) then multiset(db)[p] else 0)
  {
    SortByPage(Select(db, bookId, start, stop))
  }

  /** Membership in the result, both directions. */
  lemma ChapterPagesMembers(db: seq<Page>, bookId: string, start: int, stop: Option<int>, p: Page)
    ensures p in GetChapterPages(db, bookId, start, stop) <==> p in db && InChapter(p, bookId, start, stop)
  {
    var r := GetChapterPages(db, bookId, start, stop);
    assert p in r <==> multiset(r)[p] > 0;
    assert p in db <==> multiset(db)[p] > 0;
  }

  // ---------------------------------------------------------------------------
  // format_chapter_content
  // ---------------------------------------------------------------------------

  const EmptyChapterText: string := "ไม่มีเนื้อหา"
  const EmptyPageText: string := "<!-- ไม่มีเนื้อหาในหน้านี้ -->"
  const NoRangeLabel: string := "N/A"

  /** The comment that opens each page of a chapter body. */
  function PageMarker(page: int): string
  {
    "<!-- หน้า " + IntToString(page) + " -->"
  }

  /** A page's body: its converted content, or a placeholder when it has none. */
  function PageBody(engine: Transliterator, p: Page, code: string): (r: string)
    ensures p.content == [] ==> r == EmptyPageText
    ensures p.content != [] ==> r == ConvertHtml(engine, p.content, code)
  {
    if p.content != [] then ConvertHtml(engine, p.content, code) else EmptyPageText
  }

  /** Three parts per page, in page order: its marker, its body and an empty spacer. */
  function PageParts(engine: Transliterator, pages: seq<Page>, code: string): (parts: seq<string>)
    ensures |parts| == 3 * |pages|
    ensures forall i :: 0 <= i < |pages| ==> PartsOfPage(parts, i, engine, pages[i], code)
    decreases |pages|
  {
    if pages == [] then []
    else
      var head := [PageMarker(pages[0].page), PageBody(engine, pages[0], code), []];
      var rest := PageParts(engine, pages[1..], code);
      PartsAfterHead(head, rest, engine, pages, code);
      head + rest
  }

  /** The first page's three parts in front of the parts of the other pages. */
  lemma PartsAfterHead(head: seq<string>, rest: seq<string>, engine: Transliterator, pages: seq<Page>, code: string)
    requires pages != [] && head == [PageMarker(pages[0].page), PageBody(engine, pages[0], code), []]
    requires forall i :: 0 <= i < |pages[1..]| ==> PartsOfPage(rest, i, engine, pages[1..][i], code)
    ensures forall i :: 0 <= i < |pages| ==> PartsOfPage(head + rest, i, engine, pages[i], code)
  {
    assert |head| == 3;
    forall i | 0 <= i < |pages|
      ensures PartsOfPage(head + rest, i, engine, pages[i], code)
    {
      if i == 0 {
        assert (head + rest)[..3] == head;
      } else {
        var p := pages[1..][i - 1];
        assert pages[i] == p;
        assert PartsOfPage(rest, i - 1, engine, p, code);
        PartsShift(head, rest, i - 1, PageMarker(p.page), PageBody(engine, p, code));
      }
    }
  }

  /** Parts `3i`, `3i+1` and `3i+2` are the marker of page `p`, its body and the spacer. */
  predicate PartsOfPage(parts: seq<string>, i: nat, engine: Transliterator, p: Page, code: string)
  {
    PartsAt(parts, i, PageMarker(p.page), PageBody(engine, p, code))
  }

  /** Parts `3i`, `3i+1` and `3i+2` are `marker`, `body` and the empty spacer. */
  predicate PartsAt(parts: seq<string>, i: nat, marker: string, body: string)
  {
    && 3 * i + 2 < |parts|
    && parts[3 * i] == marker
    && parts[3 * i + 1] == body
    && parts[3 * i + 2] == []
  }

  /** Three parts in front move a page's parts three places on. */
  lemma PartsShift(head: seq<string>, rest: seq<string>, j: nat, marker: string, body: string)
    requires |head| == 3 && PartsAt(rest, j, marker, body)
    ensures PartsAt(head + rest, j + 1, marker, body)
  {
    var parts := head + rest;
    var m := 3 * j;
    assert parts[m + 3] == rest[m] && parts[m + 4] == rest[m + 1] && parts[m + 5] == rest[m + 2];
  }

  /** No part holds a line break when no page body does. */
  lemma {:induction false} PartsWithoutBreaks(engine: Transliterator, pages: seq<Page>, code: string)
    requires forall i :: 0 <= i < |pages| ==> '\n' !in PageBody(engine, pages[i], code)
    ensures forall k :: 0 <= k < |PageParts(engine, pages, code)| ==> '\n' !in PageParts(engine, pages, code)[k]
    decreases |pages|
  {
    if pages != [] {
      NoBreakInMarker(pages[0].page);
      assert forall i :: 0 <= i < |pages[1..]| ==> pages[1..][i] == pages[i + 1];
      PartsWithoutBreaks(engine, pages[1..], code);
      var parts := PageParts(engine, pages, code);
      var rest := PageParts(engine, pages[1..], code);
      var head := [PageMarker(pages[0].page), PageBody(engine, pages[0], code), []];
      assert parts == head + rest;
      forall k | 0 <= k < |parts|
        ensures '\n' !in parts[k]
      {
        if k >= 3 {
          assert parts[k] == rest[k - 3];
        } else if k == 1 {
          assert parts[1] == PageBody(engine, pages[0], code);
        } else {
          assert parts[k] == head[k];
        }
      }
    }
  }

  /** The paranums that are set, in page order. */
  function Paranums(pages: seq<Page>): (r: seq<string>)
    ensures |r| <= |pages|
    ensures forall k :: 0 <= k < |r| ==> r[k] != []
    ensures r == [] <==> forall i :: 0 <= i < |pages| ==> pages[i].paranum == []
    decreases |pages|
  {
    if pages == [] then []
    else
      var rest := Paranums(pages[1..]);
      assert forall i :: 1 <= i < |pages| ==> pages[i] == pages[1..][i - 1];
      if pages[0].paranum != [] then [pages[0].paranum] + rest else rest
  }

  /** The paranum list of consecutive runs of pages is the concatenation of theirs. */
  lemma {:induction false} ParanumsAppend(a: seq<Page>, b: seq<Page>)
    ensures Paranums(a + b) == Paranums(a) + Paranums(b)
    decreases |a|
  {
    if a == [] {
      assert a + b == b;
    } else {
      assert (a + b)[0] == a[0];
      assert (a + b)[1..] == a[1..] + b;
      ParanumsAppend(a[1..], b);
    }
  }

  /** The positions of the pages whose paranum is set, in increasing order. */
  function ParanumPositions(pages: seq<Page>): (idx: seq<nat>)
    ensures forall k :: 0 <= k < |idx| ==> idx[k] < |pages| && pages[idx[k]].paranum != []
    ensures forall k1, k2 :: 0 <= k1 < k2 < |idx| ==> idx[k1] < idx[k2]
    ensures forall i :: 0 <= i < |pages| && pages[i].paranum != [] ==> i in idx
    decreases |pages|
  {
    if pages == [] then []
    else
      var n := |pages| - 1;
      var init := ParanumPositions(pages[..n]);
      assert forall i :: 0 <= i < n ==> pages[..n][i] == pages[i];
      init + (if pages[n].paranum != [] then [n] else [])
  }

  /** The paranum list holds the set paranums in page order: its entry `k` is the
      paranum of the `k`-th page whose paranum is set. */
  lemma {:induction false} ParanumsInPageOrder(pages: seq<Page>)
    ensures |Paranums(pages)| == |ParanumPositions(pages)|
    ensures forall k :: 0 <= k < |Paranums(pages)| ==> Paranums(pages)[k] == pages[ParanumPositions(pages)[k]].paranum
    decreases |pages|
  {
    if pages != [] {
      var n := |pages| - 1;
      var init := pages[..n];
      ParanumsInPageOrder(init);
      assert pages == init + [pages[n]];
      ParanumsSnoc(init, pages[n]);
      assert ParanumPositions(pages) == ParanumPositions(init) + (if pages[n].paranum != [] then [n] else []);
      PicksSnoc(Paranums(init), ParanumPositions(init), init, pages[n]);
    }
  }

  /** Entry `k` of `r` is the paranum of page `idx[k]`. */
  predicate Picks(r: seq<string>, idx: seq<nat>, pages: seq<Page>)
  {
    |r| == |idx| && forall k :: 0 <= k < |r| ==> idx[k] < |pages| && r[k] == pages[idx[k]].paranum
  }

  lemma PicksSnoc(r: seq<string>, idx: seq<nat>, init: seq<Page>, p: Page)
    requires Picks(r, idx, init)
    ensures Picks(r + (if p.paranum != [] then [p.paranum] else []),
                  idx + (if p.paranum != [] then [|init|] else []), init + [p])
  {
    var r' := r + (if p.paranum != [] then [p.paranum] else []);
    var idx' := idx + (if p.paranum != [] then [|init|] else []);
    var pages := init + [p];
    forall k | 0 <= k < |r'|
      ensures idx'[k] < |pages| && r'[k] == pages[idx'[k]].paranum
    {
      if k < |r| {
        assert r'[k] == r[k] && idx'[k] == idx[k];
        assert pages[idx[k]] == init[idx[k]];
      }
    }
  }

  /** One more page adds its paranum at the end when it is set. */
  lemma ParanumsSnoc(init: seq<Page>, p: Page)
    ensures Paranums(init + [p]) == Paranums(init) + (if p.paranum != [] then [p.paranum] else [])
  {
    ParanumsAppend(init, [p]);
    assert [p][1..] == [];
  }

  /** `format_chapter_content` (the chapter name is not used): the body, the paranum
      list and the label of the range from the first page to the last. */
  function FormatChapterContent(engine: Transliterator, pages: seq<Page>, code: string): (r: (string, seq<string>, string))
    ensures pages == [] ==> r == (EmptyChapterText, [], NoRangeLabel)
    ensures pages != [] ==>
              && r.0 == Join(PageParts(engine, pages, code), "\n")
              && r.1 == Paranums(pages)
              && r.2 == PageLabel(pages[0].page, pages[|pages| - 1].page)
  {
    if pages == [] then (EmptyChapterText, [], NoRangeLabel)
    else (Join(PageParts(engine, pages, code), "\n"), Paranums(pages), PageLabel(pages[0].page, pages[|pages| - 1].page))
  }

  /** When no page body contains a line break, the body splits back into the parts. */
  lemma ChapterBodySplits(engine: Transliterator, pages: seq<Page>, code: string)
    requires pages != []
    requires forall i :: 0 <= i < |pages| ==> '\n' !in PageBody(engine, pages[i], code)
    ensures Split(FormatChapterContent(engine, pages, code).0, "\n") == PageParts(engine, pages, code)
  {
    var parts := PageParts(engine, pages, code);
    PartsWithoutBreaks(engine, pages, code);
    forall k | 0 <= k < |parts| - 1
      ensures CleanBefore(parts[k], "\n")
    {
      CleanBeforeChar(parts[k], '\n');
    }
    AbsentChar(parts[|parts| - 1], '\n');
    SplitJoin(parts, "\n");
  }

  lemma NoBreakInMarker(page: int)
    ensures '\n' !in PageMarker(page)
  {
    IntToStringPlain(page);
  }

  /** When the first and the last page numbers are non-negative, the label reads back
      as the first and the last page. */
  lemma ChapterLabelRange(engine: Transliterator, pages: seq<Page>, code: string)
    requires pages != [] && pages[0].page >= 0 && pages[|pages| - 1].page >= 0
    ensures ParsePageLabel(FormatChapterContent(engine, pages, code).2)
         == Some((pages[0].page, pages[|pages| - 1].page))
  {
    PageLabelRoundTrip(pages[0].page, pages[|pages| - 1].page);
  }

  /** What the three results of `format_chapter_content` give back: the fixed triple
      for no pages; otherwise the body splits back into the page parts when no body holds
      a line break, the label reads back as the first and last page when those are
      non-negative, and the paranum list holds the set paranums in page order. */
  lemma FormatChapterContentReadsBack(engine: Transliterator, pages: seq<Page>, code: string)
    ensures pages == [] ==> FormatChapterContent(engine, pages, code) == (EmptyChapterText, [], NoRangeLabel)
    ensures pages != [] && (forall i :: 0 <= i < |pages| ==> '\n' !in PageBody(engine, pages[i], code)) ==>
              Split(FormatChapterContent(engine, pages, code).0, "\n") == PageParts(engine, pages, code)
    ensures pages != [] && pages[0].page >= 0 && pages[|pages| - 1].page >= 0 ==>
              ParsePageLabel(FormatChapterContent(engine, pages, code).2) == Some((pages[0].page, pages[|pages| - 1].page))
    ensures var ps := FormatChapterContent(engine, pages, code).1;
            && |ps| == |ParanumPositions(pages)|
            && forall k :: 0 <= k < |ps| ==> ps[k] == pages[ParanumPositions(pages)[k]].paranum
  {
    if pages != [] {
      if forall i :: 0 <= i < |pages| ==> '\n' !in PageBody(engine, pages[i], code) {
        ChapterBodySplits(engine, pages, code);
      }
      if pages[0].page >= 0 && pages[|pages| - 1].page >= 0 {
        ChapterLabelRange(engine, pages, code);
      }
    }
    ParanumsInPageOrder(pages);
  }

  // ---------------------------------------------------------------------------
  // create_chapter_files
  // ---------------------------------------------------------------------------

  /** The front matter and heading of a chapter's `index.md`. */
  datatype ChapterIndex = ChapterIndex(title: string, order: nat, pageLabel: string, pageCount: nat, first: int, last: int)

  /** One page file of a chapter. */
  datatype PageFile = PageFile(fileName: string, chapterName: string, pageNum: int, order: nat, paranum: string, content: string)

  /** A chapter directory (named by its 1-based position), its index and its page files. */
  datatype ChapterOutput = ChapterOutput(dir: string, index: ChapterIndex, files: seq<PageFile>)

  function PageFileName(page: int): string
  {
    "page-" + IntToString(page) + ".md"
  }

  /** The file written for the page at 1-based position `order`. */
  function FileFor(engine: Transliterator, chapterName: string, p: Page, order: nat, code: string): PageFile
  {
    PageFile(PageFileName(p.page), chapterName, p.page, order, p.paranum, ConvertHtml(engine, p.content, code))
  }

  /** The pages with content, counted. */
  function ContentCount(pages: seq<Page>): nat
    decreases |pages|
  {
    if pages == [] then 0 else (if pages[0].content != [] then 1 else 0) + ContentCount(pages[1..])
  }

  /** The page loop: a file for every page with content, numbered by its position among
      all the chapter's pages (the first page is at `pos`); pages without content are
      skipped but still counted. */
  function PageFiles(engine: Transliterator, chapterName: string, pages: seq<Page>, pos: nat, code: string): (r: seq<PageFile>)
    ensures |r| == ContentCount(pages)
    decreases |pages|
  {
    if pages == [] then []
    else
      var rest := PageFiles(engine, chapterName, pages[1..], pos + 1, code);
      if pages[0].content != [] then [FileFor(engine, chapterName, pages[0], pos, code)] + rest else rest
  }

  /** Each file is the file of a page with content at that page's position, and the
      positions go up strictly. */
  predicate FilesOfPages(r: seq<PageFile>, engine: Transliterator, chapterName: string, pages: seq<Page>, pos: nat, code: string)
  {
    && (forall k :: 0 <= k < |r| ==> FileOfPage(r[k], engine, chapterName, pages, pos, code))
    && forall k1, k2 :: 0 <= k1 < k2 < |r| ==> r[k1].order < r[k2].order
  }

  /** `f` is the file of a page with content, at that page's position. */
  predicate FileOfPage(f: PageFile, engine: Transliterator, chapterName: string, pages: seq<Page>, pos: nat, code: string)
  {
    && pos <= f.order < pos + |pages|
    && pages[f.order - pos].content != []
    && f == FileFor(engine, chapterName, pages[f.order - pos], f.order, code)
  }

  /** Files of the pages after the first are files of all the pages, one position on. */
  lemma FilesShift(r: seq<PageFile>, engine: Transliterator, chapterName: string, pages: seq<Page>, pos: nat, code: string)
    requires pages != [] && FilesOfPages(r, engine, chapterName, pages[1..], pos + 1, code)
    ensures FilesOfPages(r, engine, chapterName, pages, pos, code)
    ensures forall k :: 0 <= k < |r| ==> pos < r[k].order
  {
    forall k | 0 <= k < |r|
      ensures FileOfPage(r[k], engine, chapterName, pages, pos, code)
    {
      assert FileOfPage(r[k], engine, chapterName, pages[1..], pos + 1, code);
      assert pages[r[k].order - pos] == pages[1..][r[k].order - (pos + 1)];
    }
  }

  /** The first page's file in front of the files of the rest, all at later positions. */
  lemma FilesCons(r: seq<PageFile>, engine: Transliterator, chapterName: string, pages: seq<Page>, pos: nat, code: string)
    requires pages != [] && pages[0].content != []
    requires FilesOfPages(r, engine, chapterName, pages, pos, code)
    requires forall k :: 0 <= k < |r| ==> pos < r[k].order
    ensures FilesOfPages([FileFor(engine, chapterName, pages[0], pos, code)] + r, engine, chapterName, pages, pos, code)
  {
    HeadFile(engine, chapterName, pages, pos, code);
    ConsPreserves(FileFor(engine, chapterName, pages[0], pos, code), r, engine, chapterName, pages, pos, code);
  }

  /** The first page's file is the file of a page, at the first position. */
  lemma HeadFile(engine: Transliterator, chapterName: string, pages: seq<Page>, pos: nat, code: string)
    requires pages != [] && pages[0].content != []
    ensures FileOfPage(FileFor(engine, chapterName, pages[0], pos, code), engine, chapterName, pages, pos, code)
    ensures FileFor(engine, chapterName, pages[0], pos, code).order == pos
  {
    var f := FileFor(engine, chapterName, pages[0], pos, code);
    assert f.order - pos == 0;
  }

  /** A file of a page put in front of files at later positions. */
  lemma ConsPreserves(f: PageFile, r: seq<PageFile>, engine: Transliterator, chapterName: string, pages: seq<Page>, pos: nat, code: string)
    requires FileOfPage(f, engine, chapterName, pages, pos, code)
    requires FilesOfPages(r, engine, chapterName, pages, pos, code)
    requires forall k :: 0 <= k < |r| ==> f.order < r[k].order
    ensures FilesOfPages([f] + r, engine, chapterName, pages, pos, code)
  {
    ConsFiles(f, r, engine, chapterName, pages, pos, code);
    ConsOrders(f, r);
  }

  lemma ConsFiles(f: PageFile, r: seq<PageFile>, engine: Transliterator, chapterName: string, pages: seq<Page>, pos: nat, code: string)
    requires FileOfPage(f, engine, chapterName, pages, pos, code)
    requires forall k :: 0 <= k < |r| ==> FileOfPage(r[k], engine, chapterName, pages, pos, code)
    ensures forall k :: 0 <= k < |[f] + r| ==> FileOfPage(([f] + r)[k], engine, chapterName, pages, pos, code)
  {
    var r' := [f] + r;
    forall k | 0 <= k < |r'|
      ensures FileOfPage(r'[k], engine, chapterName, pages, pos, code)
    {
      if k > 0 {
        assert r'[k] == r[k - 1];
      }
    }
  }

  /** Files in increasing position order stay so behind one at an earlier position. */
  lemma ConsOrders(f: PageFile, r: seq<PageFile>)
    requires forall k1, k2 :: 0 <= k1 < k2 < |r| ==> r[k1].order < r[k2].order
    requires forall k :: 0 <= k < |r| ==> f.order < r[k].order
    ensures forall k1, k2 :: 0 <= k1 < k2 < |[f] + r| ==> ([f] + r)[k1].order < ([f] + r)[k2].order
  {
    var r' := [f] + r;
    forall k1, k2 | 0 <= k1 < k2 < |r'|
      ensures r'[k1].order < r'[k2].order
    {
      assert r'[k2] == r[k2 - 1];
      if k1 > 0 {
        assert r'[k1] == r[k1 - 1];
      }
    }
  }

  /** Each file is the file of a page with content, at that page's position, and the
      positions go up strictly. */
  lemma {:induction false} PageFilesShape(engine: Transliterator, chapterName: string, pages: seq<Page>, pos: nat, code: string)
    ensures FilesOfPages(PageFiles(engine, chapterName, pages, pos, code), engine, chapterName, pages, pos, code)
    decreases |pages|
  {
    if pages != [] {
      var rest := PageFiles(engine, chapterName, pages[1..], pos + 1, code);
      PageFilesShape(engine, chapterName, pages[1..], pos + 1, code);
      FilesShift(rest, engine, chapterName, pages, pos, code);
      if pages[0].content != [] {
        FilesCons(rest, engine, chapterName, pages, pos, code);
      }
    }
  }

  /** Some file carries the given position. */
  predicate HasFileAt(files: seq<PageFile>, order: nat)
  {
    exists k :: 0 <= k < |files| && files[k].order == order
  }

  /** Every page with content gets a file, numbered by its position. */
  lemma {:induction false} EveryContentPageHasFile(engine: Transliterator, chapterName: string, pages: seq<Page>,
                                                   pos: nat, code: string, i: nat)
    requires i < |pages| && pages[i].content != []
    ensures HasFileAt(PageFiles(engine, chapterName, pages, pos, code), pos + i)
    decreases i
  {
    var r := PageFiles(engine, chapterName, pages, pos, code);
    var rest := PageFiles(engine, chapterName, pages[1..], pos + 1, code);
    if i == 0 {
      var f := FileFor(engine, chapterName, pages[0], pos, code);
      HeadFile(engine, chapterName, pages, pos, code);
      assert r == [f] + rest;
      assert r[0] == f;
    } else {
      EveryContentPageHasFile(engine, chapterName, pages[1..], pos + 1, code, i - 1);
      FileKept(engine, chapterName, pages, pos, code, pos + i);
    }
  }

  /** A position that has a file among the files of the later pages has one among the
      files of all the pages. */
  lemma FileKept(engine: Transliterator, chapterName: string, pages: seq<Page>, pos: nat, code: string, order: nat)
    requires pages != [] && HasFileAt(PageFiles(engine, chapterName, pages[1..], pos + 1, code), order)
    ensures HasFileAt(PageFiles(engine, chapterName, pages, pos, code), order)
  {
    var r := PageFiles(engine, chapterName, pages, pos, code);
    var rest := PageFiles(engine, chapterName, pages[1..], pos + 1, code);
    var k :| 0 <= k < |rest| && rest[k].order == order;
    if pages[0].content != [] {
      var f := FileFor(engine, chapterName, pages[0], pos, code);
      assert r == [f] + rest;
      assert r[k + 1] == rest[k];
    } else {
      assert r == rest;
      assert r[k] == rest[k];
    }
  }

  /** One chapter (0-based `i`): its pages run from its first page to the next
      chapter's first page, or to the book's last page. */
  function ChapterFiles(engine: Transliterator, db: seq<Page>, chapters: seq<Chapter>, i: nat,
                        bookId: string, lastPage: int, code: string): ChapterOutput
    requires i < |chapters|
  {
    var start := chapters[i].page;
    var stop := if i + 1 < |chapters| then chapters[i + 1].page else lastPage + 1;
    var pages := GetChapterPages(db, bookId, start, Some(stop));
    ChapterOutput(NatToString(i + 1),
                  ChapterIndex(chapters[i].name, i + 1, PageLabel(start, stop - 1), |pages|, start, stop - 1),
                  PageFiles(engine, chapters[i].name, pages, 1, code))
  }

  /** `create_chapter_files`: one directory per chapter, named by its 1-based position;
      chapter `i` holds exactly the pages of the `i`-th range of `ChapterRanges`. */
  function CreateChapterFiles(engine: Transliterator, db: seq<Page>, chapters: seq<Chapter>,
                              bookId: string, lastPage: int, code: string): (r: seq<ChapterOutput>)
    ensures |r| == |chapters|
    ensures forall i :: 0 <= i < |r| ==>
              var rg := ChapterRanges(chapters, lastPage)[i];
              && r[i].dir == NatToString(i + 1)
              && r[i].index.title == chapters[i].name && r[i].index.order == i + 1
              && r[i].index.first == rg.0 && r[i].index.last == rg.1 - 1
              && r[i].index.pageLabel == PageLabel(rg.0, rg.1 - 1)
              && r[i].index.pageCount == |GetChapterPages(db, bookId, rg.0, Some(rg.1))|
              && r[i].files == PageFiles(engine, chapters[i].name, GetChapterPages(db, bookId, rg.0, Some(rg.1)), 1, code)
  {
    seq(|chapters|, i requires 0 <= i < |chapters| => ChapterFiles(engine, db, chapters, i, bookId, lastPage, code))
  }

  /** For chapters in page order, each page of the book between the first chapter's
      first page and the book's last page is selected by exactly one chapter. */
  lemma PageInExactlyOneChapter(db: seq<Page>, chapters: seq<Chapter>, bookId: string, lastPage: int, p: Page)
    requires chapters != [] && SortedChapters(chapters)
    requires p in db && p.bookId == bookId && chapters[0].page <= p.page <= lastPage
    ensures var rs := ChapterRanges(chapters, lastPage);
            && (exists k :: 0 <= k < |rs| && p in GetChapterPages(db, bookId, rs[k].0, Some(rs[k].1)))
            && forall k1, k2 ::
                 (0 <= k1 < |rs| && 0 <= k2 < |rs|
                  && p in GetChapterPages(db, bookId, rs[k1].0, Some(rs[k1].1))
                  && p in GetChapterPages(db, bookId, rs[k2].0, Some(rs[k2].1))) ==> k1 == k2
  {
    var rs := ChapterRanges(chapters, lastPage);
    RangesPartition(chapters, lastPage, p.page);
    forall k | 0 <= k < |rs|
      ensures p in GetChapterPages(db, bookId, rs[k].0, Some(rs[k].1)) <==> InRange(rs[k], p.page)
    {
      ChapterPagesMembers(db, bookId, rs[k].0, Some(rs[k].1), p);
    }
  }
}
