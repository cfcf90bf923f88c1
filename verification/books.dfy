/**
 Per-book conversion and placement: `convert_book_content` converts a book's name,
 abbreviation and chapter names for one script, and `determine_book_path` places the
 book's directory under the script's `mula` tree according to its category.

 Paths are sequences of components relative to the source root; the component
 `root` stands for the root itself.
 */
module Books {
  import opened TextUtil
  import opened Conversion

  /** A row of the `books` table, restricted to the columns the builders read. */
  datatype Book = Book(
    id: string,
    basket: string,
    category: string,
    name: string,
    firstPage: int,
    lastPage: int,
    toc: string,
    abbr: string)

  /** One chapter parsed from a book's table of contents. */
  datatype Chapter = Chapter(name: string, page: int)

  /** The categories that live under the `su` (sutta) subsection. */
  const SuttaSubdivisions: seq<string> := ["di", "ma", "sa", "an", "ku"]

  /** Every chapter name converted, every page kept, the order unchanged. */
  function ConvertChapters(engine: Transliterator, chapters: seq<Chapter>, code: string): (r: seq<Chapter>)
    ensures |r| == |chapters|
    ensures forall i :: 0 <= i < |r| ==>
              r[i].page == chapters[i].page && r[i].name == ConvertName(engine, chapters[i].name, code)
    decreases |chapters|
  {
    if chapters == [] then []
    else
      [Chapter(ConvertName(engine, chapters[0].name, code), chapters[0].page)]
      + ConvertChapters(engine, chapters[1..], code)
  }

  /** `convert_book_content`: the converted name, the converted abbreviation and the
      converted chapters. */
  function ConvertBookContent(engine: Transliterator, book: Book, chapters: seq<Chapter>, code: string)
    : (r: (string, string, seq<Chapter>))
    ensures r.0 == ConvertName(engine, book.name, code)
    ensures r.1 == ConvertName(engine, book.abbr, code)
    ensures |r.2| == |chapters|
    ensures forall i :: 0 <= i < |chapters| ==>
              r.2[i] == Chapter(ConvertName(engine, chapters[i].name, code), chapters[i].page)
  {
    if code == NativeScript then (book.name, book.abbr, chapters)
    else
      match GetTransliterationConfig(code)
      case None => (book.name, book.abbr, chapters)
      case Some(_) =>
        (ConvertName(engine, book.name, code), ConvertName(engine, book.abbr, code),
         ConvertChapters(engine, chapters, code))
  }

  /** For the native script, and for a code without a profile, the book comes back as
      stored. */
  lemma ConvertBookContentIdentity(engine: Transliterator, book: Book, chapters: seq<Chapter>, code: string)
    requires code == NativeScript || GetTransliterationConfig(code).None?
    ensures ConvertBookContent(engine, book, chapters, code) == (book.name, book.abbr, chapters)
  {
    var r := ConvertBookContent(engine, book, chapters, code);
    assert r.2 == chapters;
  }

  /** Chapter conversion distributes over concatenation, so chapters convert one by
      one and independently of their neighbours. */
  lemma {:induction false} ConvertChaptersAppend(engine: Transliterator, a: seq<Chapter>, b: seq<Chapter>, code: string)
    ensures ConvertChapters(engine, a + b, code) == ConvertChapters(engine, a, code) + ConvertChapters(engine, b, code)
    decreases |a|
  {
    if a != [] {
      assert (a + b)[1..] == a[1..] + b;
      ConvertChaptersAppend(engine, a[1..], b, code);
    }
  }

  /** `determine_book_path`: `root/code/mula/su/category/abbr` for a sutta category,
      `root/code/mula/category/abbr` otherwise. */
  function DetermineBookPath(root: seq<string>, code: string, category: string, abbr: string): (p: seq<string>)
    ensures |p| == |root| + (if category in SuttaSubdivisions then 5 else 4)
    ensures p[..|root|] == root
    ensures p[|root|] == code && p[|root| + 1] == "mula"
    ensures p[|p| - 2] == category && p[|p| - 1] == abbr
    ensures category in SuttaSubdivisions ==> p[|root| + 2] == "su"
  {
    var base := root + [code, "mula"];
    if category in SuttaSubdivisions then base + ["su", category, abbr]
    else base + [category, abbr]
  }

  /** The list of path components determines the script code, the category and the
      abbreviation. */
  lemma BookPathInjective(root: seq<string>, c1: string, k1: string, a1: string, c2: string, k2: string, a2: string)
    requires DetermineBookPath(root, c1, k1, a1) == DetermineBookPath(root, c2, k2, a2)
    ensures c1 == c2 && k1 == k2 && a1 == a2
  {
    var p := DetermineBookPath(root, c1, k1, a1);
    var q := DetermineBookPath(root, c2, k2, a2);
    assert p[|root|] == q[|root|];
    assert |p| == |q|;
    assert p[|p| - 2] == q[|q| - 2] && p[|p| - 1] == q[|q| - 1];
  }

  /** A component that pathlib keeps as given: non-empty and free of the separator. */
  predicate PlainComponent(c: string)
  {
    c != [] && '/' !in c
  }

  /** The text pathlib gives a path whose components are all plain: the components
      joined with '/'. */
  function PathText(p: seq<string>): string
  {
    Join(p, "/")
  }

  /** Every component of a book path is plain when the root, code, category and
      abbreviation are. */
  lemma BookPathPlain(root: seq<string>, code: string, category: string, abbr: string)
    requires forall i :: 0 <= i < |root| ==> PlainComponent(root[i])
    requires PlainComponent(code) && PlainComponent(category) && PlainComponent(abbr)
    ensures var p := DetermineBookPath(root, code, category, abbr);
            forall i :: 0 <= i < |p| ==> PlainComponent(p[i])
  {
    var p := DetermineBookPath(root, code, category, abbr);
    forall i | 0 <= i < |p|
      ensures PlainComponent(p[i])
    {
      if i < |root| {
        assert p[i] == p[..|root|][i];
      }
    }
  }

  /** The text of a path of plain components splits back into those components. */
  lemma PathTextSplits(p: seq<string>)
    requires p != [] && forall i :: 0 <= i < |p| ==> PlainComponent(p[i])
    ensures Split(PathText(p), "/") == p
  {
    forall i | 0 <= i < |p| - 1
      ensures CleanBefore(p[i], "/")
    {
      CleanBeforeChar(p[i], '/');
    }
    AbsentChar(p[|p| - 1], '/');
    SplitJoin(p, "/");
  }

  /** Distinct books never share a directory: when every component is plain, the
      printed path determines the script code, the category and the abbreviation. */
  lemma BookPathTextInjective(root: seq<string>, c1: string, k1: string, a1: string, c2: string, k2: string, a2: string)
    requires forall i :: 0 <= i < |root| ==> PlainComponent(root[i])
    requires PlainComponent(c1) && PlainComponent(k1) && PlainComponent(a1)
    requires PlainComponent(c2) && PlainComponent(k2) && PlainComponent(a2)
    requires PathText(DetermineBookPath(root, c1, k1, a1)) == PathText(DetermineBookPath(root, c2, k2, a2))
    ensures c1 == c2 && k1 == k2 && a1 == a2
  {
    BookPathPlain(root, c1, k1, a1);
    BookPathPlain(root, c2, k2, a2);
    PathTextSplits(DetermineBookPath(root, c1, k1, a1));
    PathTextSplits(DetermineBookPath(root, c2, k2, a2));
    BookPathInjective(root, c1, k1, a1, c2, k2, a2);
  }
}
