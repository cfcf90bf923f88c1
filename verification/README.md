# Tipitaka documentation builders, modelled in Dafny

The two builder scripts of this repository read the Pali canon from a database and turn it
into a Markdown source tree, one tree per script code (`mymr`, `thai`, `sinh`, `romn`, ...).
This project models the pure logic inside them:

- **Script conversion** (`conversion.dfy`, `markup.dfy`). This covers:
  - the per-script profiles;
  - the ordered literal correction rules;
  - the failure-tolerant wrapper around the transliteration engine;
  - the HTML conversion, which rewrites only the text runs that its regular expression selects.
  
  That regular expression is modelled by a left-to-right scanner, `Markup.RegexSub`. The scanner is proved equal to a block-wise reference definition, `Markup.Blockwise`, which splits the content at `<`.
- **Per-book conversion and placement** (`books.dfy`): `convert_book_content` and `determine_book_path`.
- **The TOC hierarchy resolver** (`hierarchy.dfy`): `build_hierarchical_structure`. It turns a flat, typed table of contents into items. Each item carries a path of segments, maintained with five level counters.
- **The hierarchical materializer** (`materializer.dfy`): `create_hierarchical_files`. Its output tree is a set of directories plus a map from directory path to index record, where a path is a sequence of counter labels relative to the book directory. An index record is written only when none exists (first writer wins).
- **The legacy chapter pipeline** (`toc.dfy`, `pages.dfy`):
  - the `chapter->NAME->PAGE` table-of-contents grammar;
  - chapter page ranges and their labels;
  - page selection as a filter and sort over an in-memory page sequence;
  - chapter body assembly;
  - the per-page files of `create_chapter_files`.
- **Python string semantics** the builders rely on (`text.dfy`): `split`, `join`, `replace`, `strip`, `str(int)` and `int(str)`.

Two things are parameters rather than modelled code:
- The transliteration engine is a function value `(source, target, text) -> Option<string>`, where `None` stands for the engine raising.
- Database tables are sequences of records.

The model follows the code wherever its behaviour is easy to misread. In particular:
- A new hierarchy path is the previous path cut to `min(length, level)`, plus one segment. The comment at `python/db/build_tree.py:307` says the cut adjusts the path "to match" the level, that is, to `level + 1` segments. That holds only when the previous path already reached the level: for well-nested input, which `Hierarchy.WellNestedPaths` proves.
- Corrections are applied even when the engine fails.
- Content with no `<` and no `>` is never converted.

## Model

| member | source | states |
|---|---|---|
| TextUtil.ReplaceIsSplitJoin | python/db/build.py:167 | `str.replace` is the join of the split on the pattern, using the replacement as separator: a single left-to-right pass with non-overlapping matches |
| TextUtil.JoinSplit | python/db/build.py:252 | joining the pieces of `split(sep)` with `sep` gives back the original string |
| TextUtil.SplitJoin | python/db/build.py:255 | splitting the join of pieces gives back the pieces when no piece contains the separator and none ends in a partial separator |
| TextUtil.ParseIntOfString | python/db/build.py:258 | `int()` reads back every decimal rendering `str(i)` of an integer, negative ones included |
| TextUtil.BlankIffAllSpace | python/db/build.py:138 | `text.strip() == ""` holds exactly when every character is whitespace |
| TextUtil.Strip | python/db/build.py:254 | `strip()` returns the run of the string between leading and trailing whitespace, and that run neither starts nor ends with whitespace |
| TextUtil.TrimEnd | python/db/build.py:254 | trailing strip removes exactly a whitespace suffix and leaves a non-whitespace last character |
| Markup.MatchAt | python/db/build.py:208 | the pattern matches at position i exactly when s[i] is not `<` and either it follows a `>`, or i is 0 and a `<` occurs later; the match runs to the next `<` or to the end |
| Markup.RegexSubIsBlockwise | python/db/build.py:208-212 | the left-to-right substitution equals the block-wise reference. After splitting at `<`, the leading block is rewritten whole and each later block is kept up to its first `>` and rewritten after it |
| Markup.NoBracketsUnchanged | python/db/build.py:208 | content with neither `<` nor `>` matches nothing and comes back unchanged |
| Markup.ElementText | python/db/build.py:208-212 | in `<name>text</name>`, only `text` goes through the replacement and both tags are copied verbatim |
| Markup.IdentityReplacement | python/db/build.py:190-212 | with a replacement that returns its argument, the substitution returns its input |
| Conversion.ApplyCorrections | python/db/build.py:159-169 | an empty text or an empty rule list returns the input, and that early return agrees with running the rule loop |
| Conversion.ApplyCorrectionsCompose | python/db/build.py:164-167 | rules apply in list order: `r1 + r2` acts as `r1` followed by `r2` |
| Conversion.EmptyFromSkipped | python/db/build.py:165-167 | rules whose `from` is empty have no effect |
| Conversion.SingleRuleIsSplitJoin | python/db/build.py:167 | one rule splits the text at `from` and joins the pieces with `to` |
| Conversion.SelfRuleIsIdentity | python/db/build.py:167 | a rule mapping a string to itself leaves every text unchanged |
| Conversion.CorrectionIsSinglePass | python/db/build.py:159-169 | the correction is not a fixpoint: `....` with `..`→`.` gives `..`, and correcting again gives `.` |
| Conversion.ConvertText | python/db/build.py:126-146 | blank text and engine failure return the input; for any other text the result is exactly the engine's output |
| Conversion.FirstWithCode | python/db/build.py:276-277 | returns the first profile with the code, or None exactly when no profile has it |
| Conversion.GetTransliterationConfig | python/db/build.py:266-277 | a profile with the requested code from the table, or None exactly when the table has none |
| Conversion.ProfiledCodes | python/db/build.py:27-73 | a profile exists exactly for the output script codes other than the native `mymr` |
| Conversion.ScriptCodeHasProfile | python/db/build.py:27-73 | every output script code other than `mymr` has a profile |
| Conversion.ProfileHasScriptCode | python/db/build.py:27-73 | every profile's code is an output script code other than `mymr` |
| Conversion.ConvertName | python/db/build.py:296-323 | the identity for `mymr` or a code without a profile; otherwise the corrected engine output, or the corrected original when the engine fails or the text is blank |
| Conversion.ConvertRun | python/db/build.py:190-204 | a whitespace-only run is kept; any other run is transliterated, falling back to the run itself, and then corrected |
| Conversion.ConvertHtml | python/db/build.py:171-216 | the identity for empty content, for `mymr`, for unprofiled codes, and for content without `<` or `>` |
| Conversion.ConvertHtmlIsBlockwise | python/db/build.py:171-216 | for non-empty content and a profiled code other than `mymr`, the conversion is the block-wise rewrite with the profile's run converter |
| Conversion.ConvertElement | python/db/build.py:171-212 | a single element `<name>text</name>` becomes `<name>` + converted text + `</name>` |
| Books.ConvertChapters | python/db/build.py:317-323 | every chapter name is converted, every page is kept and the order is unchanged |
| Books.ConvertBookContent | python/db/build.py:279-325 | the name, the abbreviation and each chapter name are converted as `ConvertName` says; pages and order are kept |
| Books.ConvertBookContentIdentity | python/db/build.py:296-303 | for `mymr` or an unprofiled code, the book comes back as stored |
| Books.ConvertChaptersAppend | python/db/build.py:318-323 | chapters convert independently: conversion distributes over concatenation |
| Books.DetermineBookPath | python/db/build_tree.py:250-269 | `root/code/mula/su/category/abbr` for a sutta category, `root/code/mula/category/abbr` otherwise |
| Books.BookPathInjective | python/db/build.py:393-412 | the list of path components determines the code, the category and the abbreviation |
| Books.BookPathTextInjective | python/db/build.py:405-412 | when the root, code, category and abbreviation are non-empty and free of `/`, the printed path determines the code, the category and the abbreviation, so two books share a directory only when all three agree |
| Hierarchy.IndexOf | python/db/build_tree.py:298 | the first index of the element, or None exactly when it is absent |
| Hierarchy.LevelOf | python/db/build_tree.py:284-298 | a level exactly for the five known types, and that level names the type |
| Hierarchy.Bump | python/db/build_tree.py:300-305 | counters below the level are kept, the level's counter grows by one, and deeper counters become zero |
| Hierarchy.Step | python/db/build_tree.py:293-321 | an unknown type changes nothing and emits nothing. A known type at level L bumps the counters; the new path is the old path cut to `min(length, L)` plus one segment for the entry, and the emitted item carries that path and counter |
| Hierarchy.ResolveKeepsRecognised | python/db/build_tree.py:293-321 | one item per recognised entry, in input order; the others are dropped |
| Hierarchy.StatePathIsLastPath | python/db/build_tree.py:308-319 | the running path is the path of the last emitted item, or empty before any item |
| Hierarchy.ItemShape | python/db/build_tree.py:308-320 | every item's last segment is its own entry at its own level, carrying the item's counter |
| Hierarchy.PrefixConsistent | python/db/build_tree.py:308-319 | each emitted path agrees with the previous one everywhere before its last segment |
| Hierarchy.ResolveIsStable | python/db/build_tree.py:317-321 | emitted paths are copies: more input only appends items and never alters earlier ones |
| Hierarchy.ConsecutiveCounters | python/db/build_tree.py:300-305 | between consecutive items, a same-level item counts one more and a shallower item restarts the deeper counts |
| Hierarchy.CountersCountSinceReset | python/db/build_tree.py:300-305 | each level's counter counts the entries at that level since the last shallower entry |
| Hierarchy.ItemCounterCountsSiblings | python/db/build_tree.py:305-320 | an item's counter is its position among its siblings since the last shallower entry |
| Hierarchy.WellNestedState | python/db/build_tree.py:308-315 | when no entry goes more than one level deeper than the previous, the running path has one segment per level reached so far, segment m at level m carrying counter m |
| Hierarchy.WellNestedPaths | python/db/build_tree.py:308-315 | when no entry goes more than one level deeper than the previous, every path has exactly one segment per level, levels 0 to L |
| Hierarchy.ChapterTitleExample | python/db/build_tree.py:300-320 | chapter A, title X, title Y, chapter B give the counter paths [1], [1,1], [1,2], [2] |
| Hierarchy.LeadingTitleExample | python/db/build_tree.py:297-315 | an unknown type is dropped, and a leading `title` gets a one-segment path with counter 1 |
| Materializer.ParentLabel | python/db/build_tree.py:376 | with no ancestors, the parent is the book abbreviation; with one, it is that ancestor's name |
| Materializer.ParentLabelSplits | python/db/build_tree.py:376 | when no ancestor name contains `>`, splitting the parent label on ` > ` gives back the ancestor names |
| Materializer.WalkItem | python/db/build_tree.py:346-394 | one path adds its directory prefixes to the tree and indexes each missing one with its record; existing records are kept exactly |
| Materializer.WalkItemsGrows | python/db/build_tree.py:339-394 | nothing is removed or overwritten, and every prefix of every path ends up with a directory and an index |
| Materializer.CreateHierarchicalFiles | python/db/build_tree.py:337-394 | afterwards the directories are exactly the old ones, the book directory and every prefix directory of every item; the directories with an index are exactly the old ones and every prefix directory of every item; existing records are kept unchanged |
| Materializer.CreateIsIdempotent | python/db/build_tree.py:371-391 | running twice on the same structure gives the same tree as running once |
| Materializer.FirstWriterWins | python/db/build_tree.py:371-391 | a directory new to the tree is indexed with the record of the first item whose path reaches it |
| ChapterToc.ParseLine | python/db/build.py:253-262 | a line yields something exactly when its stripped form starts with `chapter->` and has at least three `->` fields; it then yields the chapter named by field 1 at the page `int()` reads from field 2, or, when that field is not an integer, the `ValueError` message of `int()` ("invalid literal for int() with base 10: '<field>'"); further fields are ignored |
| ChapterToc.Collect | python/db/build.py:253-264 | the parse succeeds exactly when no chapter line has a bad page; on success the chapters are exactly those of the lines that parsed, in input order; on failure the error is that of the first line that reports one |
| ChapterToc.ParseBookChapters | python/db/build.py:248-264 | an empty table of contents gives no chapters; the parse fails exactly when some line is a chapter line whose page field `int()` rejects, and then with the first such line's error; otherwise it gives the chapters of the chapter lines in order |
| ChapterToc.CollectAppend | python/db/build.py:253-262 | parsing distributes over concatenated line lists, and the first error wins |
| ChapterToc.ParseRenderToc | python/db/build.py:248-264 | a table of contents rendered from chapters parses back to exactly those chapters |
| ChapterToc.BadPageFails | python/db/build.py:258 | a chapter line with a non-numeric page makes the whole parse fail rather than being skipped |
| ChapterToc.ChapterRanges | python/db/build.py:427-435 | chapter i starts at its own page and ends where the next chapter starts; the last chapter ends at the book's last page plus one |
| ChapterToc.FindRange | python/db/build.py:427-435 | a page inside the covered span lies in some range at or after the start index |
| ChapterToc.RangesPartition | python/db/build.py:427-438 | every page from the first chapter's page to the last page lies in some chapter range, and in only one when chapters are sorted |
| ChapterToc.PageLabelRoundTrip | python/db/build.py:387 | the page label `first` or `first-last` reads back to the two pages |
| ChapterToc.ChapterLabelShape | python/db/build.py:446 | a chapter's label has a dash exactly when its range holds more than one page |
| ChapterPages.Select | python/db/build.py:339-344 | a page is kept, with all its copies, exactly when its book matches and `start <= page < end` (no upper bound when end is None) |
| ChapterPages.Insert | python/db/build.py:344 | insertion into a sorted list is a sorted permutation of the list plus the element |
| ChapterPages.SortByPage | python/db/build.py:344 | the result is sorted by page and is a permutation of the input |
| ChapterPages.GetChapterPages | python/db/build.py:327-345 | exactly the selected pages, with multiplicity, in ascending page order |
| ChapterPages.ChapterPagesMembers | python/db/build.py:339-345 | a page is returned exactly when it is in the table, belongs to the book and lies in the range |
| ChapterPages.PageParts | python/db/build.py:365-382 | three parts per page: part 3i is the marker of page i, part 3i+1 its converted content or the placeholder when it has none, part 3i+2 the empty spacer |
| ChapterPages.ParanumsInPageOrder | python/db/build.py:377-379 | entry k of the paranum list is the paranum of the k-th page whose paranum is set, and those pages are exactly the ones with a set paranum, in increasing position |
| ChapterPages.ParanumsAppend | python/db/build.py:365-379 | the paranum list distributes over concatenated page lists |
| ChapterPages.FormatChapterContentReadsBack | python/db/build.py:359-391 | no pages give the fixed empty-chapter triple; otherwise the body splits back into the page parts when no body holds a line break, the label reads back as the first and last page, and the paranum list holds the set paranums in page order |
| ChapterPages.ChapterBodySplits | python/db/build.py:389 | when no page body contains a newline, splitting the chapter body at newlines gives back the parts |
| ChapterPages.ChapterLabelRange | python/db/build.py:384-387 | the label reads back to the first and last page numbers |
| ChapterPages.PageFiles | python/db/build.py:463-477 | one file per page with content |
| ChapterPages.PageFilesShape | python/db/build.py:463-477 | each file belongs to a page with content, numbered by that page's 1-based position among all the chapter's pages, and positions increase |
| ChapterPages.EveryContentPageHasFile | python/db/build.py:463-469 | every page with content gets a file numbered by its position |
| ChapterPages.CreateChapterFiles | python/db/build.py:427-477 | one directory per chapter, named by its 1-based index; its index holds the title, order, range, label and page count, and its files are the page files of its pages |
| ChapterPages.PageInExactlyOneChapter | python/db/build.py:427-438 | with sorted chapters, each page of the book within the covered span is selected by exactly one chapter |

## Left out

- The database layer is not part of this model. Queries are filters and sorts over in-memory sequences of page and book records.
- The transliteration engine's script tables are not modelled. The engine is a parameter, and a non-string engine result is not modelled.
- File-system effects are modelled only as a set of directories and a map of index records: `mkdir`, file writes, `shutil.rmtree`, `Path` resolution and encodings are out.
- Markdown templates are out. Headers and front matter are records of their fields, not rendered text.
- Orchestration is out: `build`, `connect_database`, `process_mula_books`, console output and the `__main__` blocks.
- `create_directory_structure` (build.py:218-236, build_tree.py:155-173) is out because it only performs file-system effects. Each `build()` calls it before any book is processed (build.py:518, build_tree.py:456). It first removes every script's output tree with `shutil.rmtree` (build.py:224-225, build_tree.py:161-162), then creates empty section directories. So every build starts from an empty output tree plus directories that carry no index. The arbitrary starting `Tree` of `Materializer.CreateHierarchicalFiles`, and the records that `Materializer.CreateIsIdempotent` and `Materializer.FirstWriterWins` assume already exist, describe earlier calls of `create_hierarchical_files` within the same build. They do not describe files kept from a previous build.
- Books.BookPathInjective: states injectivity of the component list only. pathlib drops empty components and splits a component on `/`, so an empty or `/`-holding category or abbreviation can make two books share a directory. `Books.BookPathTextInjective` states the printed-path property for components pathlib keeps as given.
- ChapterToc.ParseLine: the error message shows the page field between single quotes. Python prints the field's `repr`, which uses double quotes for a field that holds a single quote and no double quote, and escapes backslashes and control characters.
- The exception branch of `convert_html_content` is out. With a total replacement function, the substitution cannot raise.
- The re-raise after a failed index write in `create_hierarchical_files` is out. Writes always succeed in the model.
- TextUtil.ParseInt: accepts surrounding whitespace, an optional sign and ASCII digits only. Python's `int()` also accepts underscores between digits and non-ASCII decimal digits; in the model those give an error.
- `None` is not distinguished from `""` for a page's content and paranum or for a book's table of contents. Both are falsy in every test the code makes, and `paranum or ""` maps `None` to `""`.
- ChapterPages.SortByPage: the database orders by page only, so pages with equal numbers may come in any order. The model uses an insertion sort, in which the order of equal page numbers is unspecified, and states only sortedness and the permutation.
- ChapterPages.PageFiles: two pages with the same page number would write the same `page-N.md` file, and the later write would replace the earlier one. The model keeps the list of writes, in order.
- `format_chapter_content` takes the chapter name as a parameter but never uses it, so the model omits that parameter.
- Hierarchy.Step: the path length is `min(previous length, level) + 1`, not `level + 1`. The code does this and the model follows it; the `level + 1` shape is proved only for well-nested input (Hierarchy.WellNestedPaths).
