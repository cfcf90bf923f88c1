/**
 The legacy chapter table of contents (`parse_book_chapters`) and the page-range
 arithmetic of `create_chapter_files`.

 A book's `toc` text holds one entry per line. A line whose stripped form starts with
 `chapter->` and has at least three `->`-separated fields names a chapter: field 1 is
 its name and field 2 its first page. Every other line is ignored. A page field that
 is not an integer raises, which the model reports as an error result; the first such
 line decides the error.
 */
module ChapterToc {
  import opened TextUtil
  import opened Books

  const ChapterPrefix: string := "chapter->"
  const FieldSeparator: string := "->"
  const LineSeparator: string := "\n"

  /** A chapter line of the table of contents. */
  predicate IsChapterLine(line: string)
  {
    ChapterPrefix <= Strip(line) && |Split(Strip(line), FieldSeparator)| >= 3
  }

  /** One line: `None` when it is ignored, otherwise its chapter or the error `int()`
      raises on its page field. Fields after the third are ignored. */
  function ParseLine(line: string): (r: Option<Result<Chapter>>)
    ensures r.Some? <==> IsChapterLine(line)
    ensures IsChapterLine(line) ==>
              var parts := Split(Strip(line), FieldSeparator);
              && (r.value.Ok? <==> ParseInt(parts[2]).Some?)
              && (r.value.Ok? ==> r.value.value == Chapter(parts[1], ParseInt(parts[2]).value))
              && (r.value.Err? ==> r.value.msg == PageFieldError(line))
  {
    var t := Strip(line);
    if ChapterPrefix <= t then
      var parts := Split(t, FieldSeparator);
      if |parts| >= 3 then
        match ParseInt(parts[2])
        case None => Some(Err(IntLiteralError(parts[2])))
        case Some(n) => Some(Ok(Chapter(parts[1], n)))
      else None
    else None
  }

  /** Every line read on its own. */
  function ParseAll(lines: seq<string>): (parsed: seq<Option<Result<Chapter>>>)
    ensures |parsed| == |lines|
    ensures forall i :: 0 <= i < |lines| ==> parsed[i] == ParseLine(lines[i])
  {
    seq(|lines|, i requires 0 <= i < |lines| => ParseLine(lines[i]))
  }

  /** The loop over the read lines: chapters in input order; the first bad page field
      ends the loop with its error. */
  function Collect(parsed: seq<Option<Result<Chapter>>>): (r: Result<seq<Chapter>>)
    ensures r.Ok? <==> forall i :: 0 <= i < |parsed| && parsed[i].Some? ==> parsed[i].value.Ok?
    ensures r.Ok? ==> r.value == ParsedChapters(parsed)
    ensures r.Err? ==> exists i :: 0 <= i < |parsed| && parsed[i] == Some(Err(r.msg)) && NoErrorBefore(parsed, i)
    ensures (forall i :: 0 <= i < |parsed| ==> parsed[i].None?) ==> r == Ok([])
    decreases |parsed|
  {
    if parsed == [] then Ok([])
    else
      var rest := Collect(parsed[1..]);
      ParsedChaptersCons(parsed);
      OkShift(parsed);
      match parsed[0]
      case None => NoErrorShift(parsed, rest); rest
      case Some(Err(m)) =>
        assert NoErrorBefore(parsed, 0);
        Err(m)
      case Some(Ok(c)) =>
        match rest
        case Err(m) => NoErrorShift(parsed, rest); Err(m)
        case Ok(cs) => Ok([c] + cs)
  }

  /** Every line reports no error exactly when the first does not and the rest do not. */
  lemma OkShift(parsed: seq<Option<Result<Chapter>>>)
    requires parsed != []
    ensures (forall i :: 0 <= i < |parsed| && parsed[i].Some? ==> parsed[i].value.Ok?)
        <==> (parsed[0].None? || parsed[0].value.Ok?)
             && forall i :: 0 <= i < |parsed[1..]| && parsed[1..][i].Some? ==> parsed[1..][i].value.Ok?
    ensures (forall i :: 0 <= i < |parsed| ==> parsed[i].None?)
        <==> parsed[0].None? && forall i :: 0 <= i < |parsed[1..]| ==> parsed[1..][i].None?
  {
    assert forall i :: 0 < i < |parsed| ==> parsed[i] == parsed[1..][i - 1];
  }

  /** The first error of the lines after the first, when the first line reports none,
      is the first error of all the lines. */
  lemma NoErrorShift(parsed: seq<Option<Result<Chapter>>>, rest: Result<seq<Chapter>>)
    requires parsed != [] && (parsed[0].None? || parsed[0].value.Ok?)
    requires rest.Err? ==> exists i :: 0 <= i < |parsed[1..]| && parsed[1..][i] == Some(Err(rest.msg)) && NoErrorBefore(parsed[1..], i)
    ensures rest.Err? ==> exists i :: 0 <= i < |parsed| && parsed[i] == Some(Err(rest.msg)) && NoErrorBefore(parsed, i)
  {
    if rest.Err? {
      var i :| 0 <= i < |parsed[1..]| && parsed[1..][i] == Some(Err(rest.msg)) && NoErrorBefore(parsed[1..], i);
      assert parsed[i + 1] == parsed[1..][i];
      forall j | 0 <= j < i + 1 && parsed[j].Some?
        ensures parsed[j].value.Ok?
      {
        if j > 0 {
          assert parsed[j] == parsed[1..][j - 1];
        }
      }
      assert NoErrorBefore(parsed, i + 1);
    }
  }

  /** The chapters of the lines that parsed, in input order, whatever the other lines hold. */
  function ParsedChapters(parsed: seq<Option<Result<Chapter>>>): (cs: seq<Chapter>)
    ensures |cs| <= |parsed|
  {
    if parsed == [] then []
    else
      ParsedChapters(parsed[..|parsed| - 1]) + OkChapter(parsed[|parsed| - 1])
  }

  /** The chapter of a line that parsed, and nothing for any other line. */
  function OkChapter(o: Option<Result<Chapter>>): seq<Chapter>
  {
    if o.Some? && o.value.Ok? then [o.value.value] else []
  }

  /** Read from the front: the first line's chapter, if it parsed, then the rest. */
  lemma {:induction false} ParsedChaptersCons(parsed: seq<Option<Result<Chapter>>>)
    requires parsed != []
    ensures ParsedChapters(parsed)
         == OkChapter(parsed[0]) + ParsedChapters(parsed[1..])
    decreases |parsed|
  {
    var n := |parsed|;
    var tail := OkChapter(parsed[n - 1]);
    if n == 1 {
      assert parsed[..0] == [] && parsed[1..] == [];
    } else {
      var init := parsed[..n - 1];
      ParsedChaptersCons(init);
      assert init[0] == parsed[0];
      assert init[1..] == parsed[1..][..n - 2];
      assert parsed[1..][n - 2] == parsed[n - 1];
      var head := OkChapter(parsed[0]);
      calc {
        ParsedChapters(parsed);
        ParsedChapters(init) + tail;
        (head + ParsedChapters(init[1..])) + tail;
        head + (ParsedChapters(parsed[1..][..n - 2]) + tail);
        head + ParsedChapters(parsed[1..]);
      }
    }
  }

  /** No line before line `i` reports an error. */
  predicate NoErrorBefore(parsed: seq<Option<Result<Chapter>>>, i: nat)
    requires i <= |parsed|
  {
    forall j :: 0 <= j < i && parsed[j].Some? ==> parsed[j].value.Ok?
  }

  /** `parse_book_chapters`: an empty (or missing) table of contents has no chapters;
      otherwise the lines are read in order and the parse fails exactly when some
      chapter line has a page field that is not an integer. */
  function ParseBookChapters(toc: string): (r: Result<seq<Chapter>>)
    ensures toc == [] ==> r == Ok([])
    ensures r.Err? <==> exists i :: 0 <= i < |Split(toc, LineSeparator)| && BadPageLine(Split(toc, LineSeparator)[i])
    ensures r.Ok? && toc != [] ==> r.value == ParsedChapters(ParseAll(Split(toc, LineSeparator)))
    ensures r.Err? ==> exists i :: FirstBadPageLine(Split(toc, LineSeparator), i)
                                   && r.msg == PageFieldError(Split(toc, LineSeparator)[i])
  {
    if toc == [] then Ok([])
    else
      var lines := Split(toc, LineSeparator);
      var parsed := ParseAll(lines);
      var r := Collect(parsed);
      ParsedBadLines(lines);
      if r.Err? then
        FirstBadLine(lines, r.msg);
        r
      else r
  }

  /** The first error of the parsed lines is the error of the first bad page line. */
  lemma FirstBadLine(lines: seq<string>, msg: string)
    requires exists i :: 0 <= i < |ParseAll(lines)| && ParseAll(lines)[i] == Some(Err(msg)) && NoErrorBefore(ParseAll(lines), i)
    ensures exists i :: FirstBadPageLine(lines, i) && msg == PageFieldError(lines[i])
  {
    var parsed := ParseAll(lines);
    var i :| 0 <= i < |parsed| && parsed[i] == Some(Err(msg)) && NoErrorBefore(parsed, i);
    ParsedBadLines(lines);
    forall j | 0 <= j < i
      ensures !BadPageLine(lines[j])
    {
      assert parsed[j].Some? ==> parsed[j].value.Ok?;
    }
    assert FirstBadPageLine(lines, i);
  }

  /** Line `i` is a bad page line and no line before it is. */
  predicate FirstBadPageLine(lines: seq<string>, i: int)
  {
    && 0 <= i < |lines|
    && BadPageLine(lines[i])
    && forall j :: 0 <= j < i ==> !BadPageLine(lines[j])
  }

  /** The lines that parse to an error are exactly the bad page lines. */
  lemma ParsedBadLines(lines: seq<string>)
    ensures forall i :: 0 <= i < |lines| ==> (BadPageLine(lines[i]) <==> ParseAll(lines)[i].Some? && ParseAll(lines)[i].value.Err?)
  {
    forall i | 0 <= i < |lines|
      ensures BadPageLine(lines[i]) <==> ParseAll(lines)[i].Some? && ParseAll(lines)[i].value.Err?
    {
      assert ParseAll(lines)[i] == ParseLine(lines[i]);
    }
  }

  /** A chapter line whose page field `int()` rejects. */
  predicate BadPageLine(line: string)
  {
    IsChapterLine(line) && ParseInt(Split(Strip(line), FieldSeparator)[2]).None?
  }

  /** The error raised on a chapter line's page field. */
  function PageFieldError(line: string): string
    requires IsChapterLine(line)
  {
    IntLiteralError(Split(Strip(line), FieldSeparator)[2])
  }

  /** The message of the `ValueError` that `int()` raises on a field it cannot read, with
      the field shown between single quotes. */
  function IntLiteralError(field: string): string
  {
    "invalid literal for int() with base 10: '" + field + "'"
  }

  /** Parsing two blocks of lines: the error of the first block if it has one, else the
      error of the second, else the chapters of both in order. */
  function Combine(a: Result<seq<Chapter>>, b: Result<seq<Chapter>>): Result<seq<Chapter>>
  {
    match a
    case Err(m) => Err(m)
    case Ok(x) =>
      match b
      case Err(m) => Err(m)
      case Ok(y) => Ok(x + y)
  }

  /** The line loop is a fold: lines are read independently and in order, and the
      first error wins. */
  lemma {:induction false} CollectAppend(a: seq<Option<Result<Chapter>>>, b: seq<Option<Result<Chapter>>>)
    ensures Collect(a + b) == Combine(Collect(a), Collect(b))
    decreases |a|
  {
    if a == [] {
      assert a + b == b;
      match Collect(b)
      case Err(_) =>
      case Ok(y) => assert [] + y == y;
    } else {
      assert (a + b)[0] == a[0];
      assert (a + b)[1..] == a[1..] + b;
      CollectAppend(a[1..], b);
      match a[0]
      case None =>
      case Some(Err(_)) =>
      case Some(Ok(c)) =>
        match Collect(a[1..])
        case Err(_) =>
        case Ok(x) =>
          match Collect(b)
          case Err(_) =>
          case Ok(y) => assert [c] + (x + y) == ([c] + x) + y;
    }
  }

  lemma ParseAllAppend(a: seq<string>, b: seq<string>)
    ensures ParseAll(a + b) == ParseAll(a) + ParseAll(b)
  {
  }

  // ---------------------------------------------------------------------------
  // Round trip
  // ---------------------------------------------------------------------------

  /** The line that names a chapter. */
  function ChapterLine(c: Chapter): string
  {
    ChapterPrefix + c.name + FieldSeparator + IntToString(c.page)
  }

  /** A table of contents holding exactly the given chapters. */
  function RenderToc(cs: seq<Chapter>): string
  {
    Join(seq(|cs|, i requires 0 <= i < |cs| => ChapterLine(cs[i])), LineSeparator)
  }

  /** A chapter name that survives the line format: no `>` (it would cut the name at a
      `->`) and no line break. */
  predicate Printable(name: string)
  {
    '>' !in name && '\n' !in name
  }

  lemma IntToStringPlain(i: int)
    ensures '>' !in IntToString(i) && '\n' !in IntToString(i)
  {
    var n := if i < 0 then -i else i;
    NoNonDigitInNat(n, '>');
    NoNonDigitInNat(n, '\n');
  }

  /** A chapter line reads back as its chapter. */
  lemma ParseChapterLine(c: Chapter)
    requires Printable(c.name)
    ensures ParseLine(ChapterLine(c)) == Some(Ok(c))
  {
    var line := ChapterLine(c);
    var num := IntToString(c.page);
    ChapterLineFields(c);
    assert ChapterPrefix <= line;
    assert IsChapterLine(line);
    ParseIntOfString(c.page);
    assert Split(Strip(line), FieldSeparator)[2] == num;
  }

  /** A chapter line is already stripped and splits into its three fields. */
  lemma ChapterLineFields(c: Chapter)
    requires Printable(c.name)
    ensures Strip(ChapterLine(c)) == ChapterLine(c)
    ensures Split(ChapterLine(c), FieldSeparator) == ["chapter", c.name, IntToString(c.page)]
  {
    var line := ChapterLine(c);
    var num := IntToString(c.page);
    assert line[0] == 'c';
    assert line == (ChapterPrefix + c.name + FieldSeparator) + num;
    assert line[|line| - 1] == num[|num| - 1];
    assert IsDigit(num[|num| - 1]) || num == "-";
    StripUnpadded(line);
    ChapterLineJoin(c);
    CleanBeforeSecond("chapter", FieldSeparator);
    CleanBeforeSecond(c.name, FieldSeparator);
    IntToStringPlain(c.page);
    AbsentSecond(num, FieldSeparator);
    SplitJoin(["chapter", c.name, num], FieldSeparator);
  }

  /** A chapter line is its three fields joined by the field separator. */
  lemma ChapterLineJoin(c: Chapter)
    ensures Join(["chapter", c.name, IntToString(c.page)], FieldSeparator) == ChapterLine(c)
  {
    var line := ChapterLine(c);
    var num := IntToString(c.page);
    assert line == "chapter" + FieldSeparator + (c.name + FieldSeparator + num);
    JoinCons(c.name, [num], FieldSeparator);
    assert [c.name] + [num] == [c.name, num];
    JoinCons("chapter", [c.name, num], FieldSeparator);
    assert ["chapter"] + [c.name, num] == ["chapter", c.name, num];
  }

  /** A parsed chapter in front of lines that collect to chapters is collected first. */
  lemma CollectOkCons(parsed: seq<Option<Result<Chapter>>>, c: Chapter, cs: seq<Chapter>)
    requires parsed != [] && parsed[0] == Some(Ok(c)) && Collect(parsed[1..]) == Ok(cs)
    ensures Collect(parsed) == Ok([c] + cs)
  {
  }

  lemma {:induction false} CollectChapterLines(cs: seq<Chapter>)
    requires forall i :: 0 <= i < |cs| ==> Printable(cs[i].name)
    ensures Collect(seq(|cs|, i requires 0 <= i < |cs| => Some(Ok(cs[i])))) == Ok(cs)
    decreases |cs|
  {
    if cs != [] {
      var parsed := seq(|cs|, i requires 0 <= i < |cs| => Some(Ok(cs[i])));
      CollectChapterLines(cs[1..]);
      assert parsed[1..] == seq(|cs[1..]|, i requires 0 <= i < |cs[1..]| => Some(Ok(cs[1..][i])));
      assert parsed[0] == Some(Ok(cs[0]));
      CollectOkCons(parsed, cs[0], cs[1..]);
      assert [cs[0]] + cs[1..] == cs;
    }
  }

  /** The chapter lines of the given chapters, read one by one. */
  lemma ParseChapterLines(cs: seq<Chapter>)
    requires forall i :: 0 <= i < |cs| ==> Printable(cs[i].name)
    ensures ParseAll(seq(|cs|, i requires 0 <= i < |cs| => ChapterLine(cs[i])))
         == seq(|cs|, i requires 0 <= i < |cs| => Some(Ok(cs[i])))
  {
    forall i | 0 <= i < |cs|
      ensures ParseLine(ChapterLine(cs[i])) == Some(Ok(cs[i]))
    {
      ParseChapterLine(cs[i]);
    }
  }

  /** A chapter line holds no line break. */
  lemma ChapterLineSeparable(c: Chapter)
    requires Printable(c.name)
    ensures CleanBefore(ChapterLine(c), LineSeparator) && Absent(LineSeparator, ChapterLine(c))
  {
    IntToStringPlain(c.page);
    var line := ChapterLine(c);
    assert '\n' !in line;
    CleanBeforeChar(line, '\n');
    AbsentChar(line, '\n');
  }

  /** Splitting a rendered table of contents gives back its lines. */
  lemma SplitRenderToc(cs: seq<Chapter>)
    requires cs != []
    requires forall i :: 0 <= i < |cs| ==> Printable(cs[i].name)
    ensures Split(RenderToc(cs), LineSeparator) == seq(|cs|, i requires 0 <= i < |cs| => ChapterLine(cs[i]))
  {
    var lines := seq(|cs|, i requires 0 <= i < |cs| => ChapterLine(cs[i]));
    forall i | 0 <= i < |lines|
      ensures CleanBefore(lines[i], LineSeparator) && Absent(LineSeparator, lines[i])
    {
      ChapterLineSeparable(cs[i]);
    }
    SplitJoin(lines, LineSeparator);
  }

  /** Parsing a rendered table of contents gives back its chapters, names, pages and
      order. */
  lemma ParseRenderToc(cs: seq<Chapter>)
    requires forall i :: 0 <= i < |cs| ==> Printable(cs[i].name)
    ensures ParseBookChapters(RenderToc(cs)) == Ok(cs)
  {
    if cs != [] {
      var lines := seq(|cs|, i requires 0 <= i < |cs| => ChapterLine(cs[i]));
      SplitRenderToc(cs);
      ParseChapterLines(cs);
      CollectChapterLines(cs);
      var toc := RenderToc(cs);
      assert Split(toc, LineSeparator) == lines;
      assert Split(toc, LineSeparator)[0] != [];
    }
  }

  /** A chapter line whose page field is not an integer makes the whole parse fail,
      whatever comes before or after it. */
  lemma BadPageFails(before: seq<string>, line: string, after: seq<string>)
    requires ParseLine(line).Some? && ParseLine(line).value.Err?
    ensures Collect(ParseAll(before + [line] + after)).Err?
  {
    var all := before + [line] + after;
    assert all[|before|] == line;
  }

  // ---------------------------------------------------------------------------
  // Page ranges
  // ---------------------------------------------------------------------------

  /** The pages of chapter `i` (0-based) as a half-open range: from its own first page
      to the next chapter's first page, or to the book's last page for the last one. */
  function ChapterRanges(chapters: seq<Chapter>, lastPage: int): (rs: seq<(int, int)>)
    ensures |rs| == |chapters|
    ensures forall i :: 0 <= i < |rs| ==> rs[i].0 == chapters[i].page
    ensures forall i :: 0 <= i < |rs| - 1 ==> rs[i].1 == rs[i + 1].0
    ensures rs != [] ==> rs[|rs| - 1].1 == lastPage + 1
  {
    var rs := seq(|chapters|, i requires 0 <= i < |chapters| => (chapters[i].page, RangeEnd(chapters, i, lastPage)));
    RangesChain(chapters, lastPage, rs);
    rs
  }

  /** Ranges that start at their chapter's page and end at `RangeEnd` chain into one
      another and close at the book's last page plus one. */
  lemma RangesChain(chapters: seq<Chapter>, lastPage: int, rs: seq<(int, int)>)
    requires |rs| == |chapters|
    requires forall i :: 0 <= i < |rs| ==> rs[i] == (chapters[i].page, RangeEnd(chapters, i, lastPage))
    ensures forall i :: 0 <= i < |rs| ==> rs[i].0 == chapters[i].page
    ensures forall i :: 0 <= i < |rs| - 1 ==> rs[i].1 == rs[i + 1].0
    ensures rs != [] ==> rs[|rs| - 1].1 == lastPage + 1
  {
    forall i | 0 <= i < |rs| - 1
      ensures rs[i].1 == rs[i + 1].0
    {
      assert rs[i].1 == RangeEnd(chapters, i, lastPage) == chapters[i + 1].page;
      assert rs[i + 1].0 == chapters[i + 1].page;
    }
  }

  function RangeEnd(chapters: seq<Chapter>, i: nat, lastPage: int): int
    requires i < |chapters|
  {
    if i + 1 < |chapters| then chapters[i + 1].page else lastPage + 1
  }

  predicate InRange(r: (int, int), p: int)
  {
    r.0 <= p < r.1
  }

  /** The first pages never go down. */
  predicate SortedChapters(chapters: seq<Chapter>)
  {
    forall i, j :: 0 <= i < j < |chapters| ==> chapters[i].page <= chapters[j].page
  }

  /** The range that holds page `p`, searched from range `i` on. */
  function FindRange(rs: seq<(int, int)>, p: int, i: nat): (k: nat)
    requires i < |rs| && rs[i].0 <= p < rs[|rs| - 1].1
    requires forall j :: 0 <= j < |rs| - 1 ==> rs[j].1 == rs[j + 1].0
    ensures i <= k < |rs| && InRange(rs[k], p)
    decreases |rs| - i
  {
    if p < rs[i].1 then i else FindRange(rs, p, i + 1)
  }

  /** Every page from the first chapter's first page to the book's last page belongs to
      a chapter, and for sorted chapters to exactly one. */
  lemma RangesPartition(chapters: seq<Chapter>, lastPage: int, p: int)
    requires chapters != [] && chapters[0].page <= p <= lastPage
    ensures var rs := ChapterRanges(chapters, lastPage);
            exists k :: 0 <= k < |rs| && InRange(rs[k], p)
    ensures var rs := ChapterRanges(chapters, lastPage);
            SortedChapters(chapters) ==>
              forall k1, k2 :: 0 <= k1 < |rs| && 0 <= k2 < |rs| && InRange(rs[k1], p) && InRange(rs[k2], p) ==> k1 == k2
  {
    var rs := ChapterRanges(chapters, lastPage);
    var k := FindRange(rs, p, 0);
    assert InRange(rs[k], p);
    if SortedChapters(chapters) {
      forall k1, k2 | 0 <= k1 < |rs| && 0 <= k2 < |rs| && InRange(rs[k1], p) && InRange(rs[k2], p)
        ensures k1 == k2
      {
      }
    }
  }

  // ---------------------------------------------------------------------------
  // Page labels
  // ---------------------------------------------------------------------------

  /** The label of an inclusive page range: `first` alone when the range is one page,
      otherwise `first-last`. */
  function PageLabel(first: int, last: int): string
  {
    if first != last then IntToString(first) + "-" + IntToString(last) else IntToString(first)
  }

  /** Reads a label back into its first and last page. */
  function ParsePageLabel(s: string): (r: Option<(int, int)>)
  {
    var parts := Split(s, "-");
    if |parts| == 1 then
      match ParseInt(parts[0])
      case None => None
      case Some(n) => Some((n, n))
    else if |parts| == 2 then
      match ParseInt(parts[0])
      case None => None
      case Some(a) =>
        match ParseInt(parts[1])
        case None => None
        case Some(b) => Some((a, b))
    else None
  }

  /** A single page reads back as itself. */
  lemma OnePageLabel(page: nat)
    ensures ParsePageLabel(PageLabel(page, page)) == Some((page as int, page as int))
  {
    var a := IntToString(page);
    NoNonDigitInNat(page, '-');
    ParseIntOfString(page);
    AbsentChar(a, '-');
    SplitAbsent(a, "-");
  }

  /** A range of several pages reads back as its two ends. */
  lemma TwoPageLabel(first: nat, last: nat)
    requires first != last
    ensures ParsePageLabel(PageLabel(first, last)) == Some((first as int, last as int))
  {
    var a := IntToString(first);
    var b := IntToString(last);
    NoNonDigitInNat(first, '-');
    NoNonDigitInNat(last, '-');
    JoinCons(a, [b], "-");
    assert Join([a, b], "-") == a + "-" + b;
    CleanBeforeChar(a, '-');
    AbsentChar(b, '-');
    SplitJoin([a, b], "-");
    ParseIntOfString(first);
    ParseIntOfString(last);
  }

  /** For non-negative pages the label determines the range. */
  lemma PageLabelRoundTrip(first: nat, last: nat)
    ensures ParsePageLabel(PageLabel(first, last)) == Some((first as int, last as int))
  {
    if first == last {
      OnePageLabel(first);
    } else {
      TwoPageLabel(first, last);
    }
  }

  /** A one-page chapter is labelled with a single number, a longer one with both ends. */
  lemma ChapterLabelShape(start: nat, stop: nat)
    requires start < stop
    ensures '-' in PageLabel(start, stop - 1) <==> stop - 1 != start
  {
    NoNonDigitInNat(start, '-');
    NoNonDigitInNat(stop - 1, '-');
    var shown := PageLabel(start, stop - 1);
    if stop - 1 != start {
      assert shown[|IntToString(start)|] == '-';
    }
  }
}
