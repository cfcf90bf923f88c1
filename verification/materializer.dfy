/**
 The hierarchical materializer (`create_hierarchical_files`).

 Every resolved item is walked segment by segment. The directory of a segment is the
 directory of the previous segment (the book directory for the first) extended by the
 segment's counter written in decimal; it is created if missing. An index record is
 written into it only when none exists yet, so the first writer wins. The record's
 parent label joins the converted names of the segments above it with ` > `, or is the
 book abbreviation at the top.

 The output tree holds directories as paths relative to the book directory (the book
 directory itself is `[]`) and the index records as a map from directory to record.
 */
module Materializer {
  import opened TextUtil
  import opened Conversion
  import opened Hierarchy

  /** The fields written into a directory's `index.md`. */
  datatype IndexRecord = IndexRecord(title: string, order: nat, parent: string, page: int)

  datatype Tree = Tree(dirs: set<seq<string>>, index: map<seq<string>, IndexRecord>)

  const ParentSeparator: string := " > "

  /** The directory names along a path: each segment's counter in decimal. */
  function Labels(segs: seq<PathSegment>): (ls: seq<string>)
    ensures |ls| == |segs|
    ensures forall i :: 0 <= i < |segs| ==> ls[i] == NatToString(segs[i].counter)
  {
    seq(|segs|, i requires 0 <= i < |segs| => NatToString(segs[i].counter))
  }

  /** The converted names along a path. */
  function Names(engine: Transliterator, code: string, segs: seq<PathSegment>): (ns: seq<string>)
    ensures |ns| == |segs|
    ensures forall i :: 0 <= i < |segs| ==> ns[i] == ConvertName(engine, segs[i].name, code)
  {
    seq(|segs|, i requires 0 <= i < |segs| => ConvertName(engine, segs[i].name, code))
  }

  /** The parent label of a record: the ancestors' names joined by ` > `, or the book
      abbreviation when there are none. */
  function ParentLabel(ancestors: seq<string>, bookAbbr: string): (r: string)
    ensures ancestors == [] ==> r == bookAbbr
    ensures |ancestors| == 1 ==> r == ancestors[0]
  {
    if ancestors == [] then bookAbbr else Join(ancestors, ParentSeparator)
  }

  /** The directory of the segment at `depth` (0-based) of a path. */
  function DirAt(segs: seq<PathSegment>, depth: nat): seq<string>
    requires depth < |segs|
  {
    Labels(segs)[..depth + 1]
  }

  /** The record the walk writes for the segment at `depth` when its directory has no
      record yet. */
  function RecordAt(engine: Transliterator, code: string, bookAbbr: string, segs: seq<PathSegment>, depth: nat): IndexRecord
    requires depth < |segs|
  {
    IndexRecord(ConvertName(engine, segs[depth].name, code), segs[depth].counter,
                ParentLabel(Names(engine, code, segs)[..depth], bookAbbr), segs[depth].page)
  }

  /** The directories of the segments of a path from `depth` on. */
  function DirsFrom(segs: seq<PathSegment>, depth: nat): set<seq<string>>
    requires depth <= |segs|
  {
    set k | depth <= k < |segs| :: DirAt(segs, k)
  }

  /** One visit of the inner loop: the directory is created if missing and the record is
      written only when the directory has none. */
  function Visit(t: Tree, d: seq<string>, rec: IndexRecord): (r: Tree)
    ensures r.dirs == t.dirs + {d}
    ensures r.index.Keys == t.index.Keys + {d}
    ensures forall x :: x in t.index ==> x in r.index && r.index[x] == t.index[x]
    ensures d !in t.index ==> r.index[d] == rec
  {
    Tree(t.dirs + {d}, if d in t.index then t.index else t.index[d := rec])
  }

  /** The inner loop from segment `j` on; `dir` and `ancestors` are the loop's running
      directory and list of converted names. */
  function WalkFrom(t: Tree, engine: Transliterator, code: string, bookAbbr: string,
                    segs: seq<PathSegment>, j: nat, dir: seq<string>, ancestors: seq<string>): Tree
    requires j <= |segs|
    decreases |segs| - j
  {
    if j == |segs| then t
    else
      var seg := segs[j];
      var d := dir + [NatToString(seg.counter)];
      var name := ConvertName(engine, seg.name, code);
      var t' := Visit(t, d, IndexRecord(name, seg.counter, ParentLabel(ancestors, bookAbbr), seg.page));
      WalkFrom(t', engine, code, bookAbbr, segs, j + 1, d, ancestors + [name])
  }

  /** The directories from `j` on are the one at `j` and those after it, all distinct
      from it since they are longer. */
  lemma DirsFromStep(segs: seq<PathSegment>, j: nat)
    requires j < |segs|
    ensures DirsFrom(segs, j) == {DirAt(segs, j)} + DirsFrom(segs, j + 1)
    ensures DirAt(segs, j) !in DirsFrom(segs, j + 1)
  {
    assert forall k :: j < k < |segs| ==> |DirAt(segs, k)| != |DirAt(segs, j)|;
  }

  lemma TakeSnoc<T>(s: seq<T>, j: nat)
    requires j < |s|
    ensures s[..j] + [s[j]] == s[..j + 1]
  {
  }

  /** The running directory and names of the loop, one segment further. */
  lemma AccumulatorsStep(engine: Transliterator, code: string, segs: seq<PathSegment>, j: nat)
    requires j < |segs|
    ensures Labels(segs)[..j] + [NatToString(segs[j].counter)] == DirAt(segs, j)
    ensures Names(engine, code, segs)[..j] + [ConvertName(engine, segs[j].name, code)] == Names(engine, code, segs)[..j + 1]
  {
    TakeSnoc(Labels(segs), j);
    TakeSnoc(Names(engine, code, segs), j);
  }

  /** The loop from segment `j`, with the accumulators it has reached there, visits the
      directory of `j` and goes on from `j + 1`. */
  lemma WalkFromStep(t: Tree, engine: Transliterator, code: string, bookAbbr: string,
                     segs: seq<PathSegment>, j: nat)
    requires j < |segs|
    ensures WalkFrom(t, engine, code, bookAbbr, segs, j, Labels(segs)[..j], Names(engine, code, segs)[..j])
         == WalkFrom(Visit(t, DirAt(segs, j), RecordAt(engine, code, bookAbbr, segs, j)),
                     engine, code, bookAbbr, segs, j + 1, Labels(segs)[..j + 1], Names(engine, code, segs)[..j + 1])
  {
    AccumulatorsStep(engine, code, segs, j);
  }

  /** The inner loop creates the remaining directories of the path, each with a record. */
  lemma {:induction false} WalkFromDirs(t: Tree, engine: Transliterator, code: string, bookAbbr: string,
                                        segs: seq<PathSegment>, j: nat)
    requires j <= |segs|
    ensures var r := WalkFrom(t, engine, code, bookAbbr, segs, j, Labels(segs)[..j], Names(engine, code, segs)[..j]);
            && r.dirs == t.dirs + DirsFrom(segs, j)
            && r.index.Keys == t.index.Keys + DirsFrom(segs, j)
    decreases |segs| - j
  {
    if j == |segs| {
      assert DirsFrom(segs, j) == {};
    } else {
      DirsFromStep(segs, j);
      WalkFromStep(t, engine, code, bookAbbr, segs, j);
      WalkFromDirs(Visit(t, DirAt(segs, j), RecordAt(engine, code, bookAbbr, segs, j)), engine, code, bookAbbr, segs, j + 1);
    }
  }

  /** The inner loop leaves every existing record as it was. */
  lemma {:induction false} WalkFromKeeps(t: Tree, engine: Transliterator, code: string, bookAbbr: string,
                                         segs: seq<PathSegment>, j: nat)
    requires j <= |segs|
    ensures var r := WalkFrom(t, engine, code, bookAbbr, segs, j, Labels(segs)[..j], Names(engine, code, segs)[..j]);
            forall x :: x in t.index ==> x in r.index && r.index[x] == t.index[x]
    decreases |segs| - j
  {
    if j < |segs| {
      var t' := Visit(t, DirAt(segs, j), RecordAt(engine, code, bookAbbr, segs, j));
      WalkFromStep(t, engine, code, bookAbbr, segs, j);
      WalkFromKeeps(t', engine, code, bookAbbr, segs, j + 1);
      var r := WalkFrom(t', engine, code, bookAbbr, segs, j + 1, Labels(segs)[..j + 1], Names(engine, code, segs)[..j + 1]);
      forall x | x in t.index
        ensures x in r.index && r.index[x] == t.index[x]
      {
        assert x in t'.index && r.index[x] == t'.index[x];
      }
    }
  }

  /** The inner loop writes the record of each segment whose directory had none. */
  lemma {:induction false} WalkFromWrites(t: Tree, engine: Transliterator, code: string, bookAbbr: string,
                                          segs: seq<PathSegment>, j: nat)
    requires j <= |segs|
    ensures var r := WalkFrom(t, engine, code, bookAbbr, segs, j, Labels(segs)[..j], Names(engine, code, segs)[..j]);
            forall k :: j <= k < |segs| && DirAt(segs, k) !in t.index ==>
              DirAt(segs, k) in r.index && r.index[DirAt(segs, k)] == RecordAt(engine, code, bookAbbr, segs, k)
    decreases |segs| - j
  {
    if j < |segs| {
      DirsFromStep(segs, j);
      var d := DirAt(segs, j);
      var t' := Visit(t, d, RecordAt(engine, code, bookAbbr, segs, j));
      WalkFromStep(t, engine, code, bookAbbr, segs, j);
      WalkFromKeeps(t', engine, code, bookAbbr, segs, j + 1);
      WalkFromWrites(t', engine, code, bookAbbr, segs, j + 1);
      var r := WalkFrom(t', engine, code, bookAbbr, segs, j + 1, Labels(segs)[..j + 1], Names(engine, code, segs)[..j + 1]);
      forall k | j <= k < |segs| && DirAt(segs, k) !in t.index
        ensures DirAt(segs, k) in r.index && r.index[DirAt(segs, k)] == RecordAt(engine, code, bookAbbr, segs, k)
      {
        if k == j {
          assert d in t'.index && r.index[d] == t'.index[d];
        } else {
          assert DirAt(segs, k) in DirsFrom(segs, j + 1);
          assert DirAt(segs, k) !in t'.index;
        }
      }
    }
  }

  /** What the inner loop does: it creates every remaining directory of the path, writes
      the record of each segment whose directory had none, and leaves every existing
      record as it was. */
  lemma WalkFromEffect(t: Tree, engine: Transliterator, code: string, bookAbbr: string,
                       segs: seq<PathSegment>, j: nat)
    requires j <= |segs|
    ensures var r := WalkFrom(t, engine, code, bookAbbr, segs, j, Labels(segs)[..j], Names(engine, code, segs)[..j]);
            && r.dirs == t.dirs + DirsFrom(segs, j)
            && r.index.Keys == t.index.Keys + DirsFrom(segs, j)
            && (forall d :: d in t.index ==> r.index[d] == t.index[d])
            && forall k :: j <= k < |segs| && DirAt(segs, k) !in t.index ==>
                 r.index[DirAt(segs, k)] == RecordAt(engine, code, bookAbbr, segs, k)
  {
    WalkFromDirs(t, engine, code, bookAbbr, segs, j);
    WalkFromKeeps(t, engine, code, bookAbbr, segs, j);
    WalkFromWrites(t, engine, code, bookAbbr, segs, j);
  }

  /** One item: an empty path is skipped, any other is walked from the book directory. */
  function WalkItem(t: Tree, engine: Transliterator, code: string, bookAbbr: string, it: Item): (r: Tree)
    ensures r.dirs == t.dirs + DirsFrom(it.path, 0)
    ensures r.index.Keys == t.index.Keys + DirsFrom(it.path, 0)
    ensures forall d :: d in t.index ==> r.index[d] == t.index[d]
    ensures forall k :: 0 <= k < |it.path| && DirAt(it.path, k) !in t.index ==>
              r.index[DirAt(it.path, k)] == RecordAt(engine, code, bookAbbr, it.path, k)
  {
    if it.path == [] then
      assert DirsFrom(it.path, 0) == {};
      t
    else
      WalkFromEffect(t, engine, code, bookAbbr, it.path, 0);
      WalkFrom(t, engine, code, bookAbbr, it.path, 0, [], [])
  }

  /** The outer loop over the items, in order. */
  function WalkItems(t: Tree, engine: Transliterator, code: string, bookAbbr: string, items: seq<Item>): Tree
    decreases |items|
  {
    if items == [] then t
    else WalkItems(WalkItem(t, engine, code, bookAbbr, items[0]), engine, code, bookAbbr, items[1..])
  }

  /** Every directory of every item's path. */
  function AllDirs(items: seq<Item>): set<seq<string>>
  {
    set i, k | 0 <= i < |items| && 0 <= k < |items[i].path| :: DirAt(items[i].path, k)
  }

  /** `create_hierarchical_files`: the book directory is created, then every item is
      walked. What it leaves behind: exactly the old directories, the book directory and
      every directory of every item; a record in each item directory and nowhere new
      else; and every record that existed before unchanged. */
  function CreateHierarchicalFiles(t: Tree, engine: Transliterator, code: string, bookAbbr: string, items: seq<Item>): (r: Tree)
    ensures r.dirs == t.dirs + {[]} + AllDirs(items)
    ensures r.index.Keys == t.index.Keys + AllDirs(items)
    ensures [] in r.dirs && t.dirs <= r.dirs
    ensures forall d :: d in t.index ==> d in r.index && r.index[d] == t.index[d]
    ensures forall i, k :: 0 <= i < |items| && 0 <= k < |items[i].path| ==>
              DirAt(items[i].path, k) in r.dirs && DirAt(items[i].path, k) in r.index
  {
    var t0 := Tree(t.dirs + {[]}, t.index);
    WalkItemsGrows(t0, engine, code, bookAbbr, items);
    WalkItemsFrame(t0, engine, code, bookAbbr, items);
    CoveredPrefixes(WalkItems(t0, engine, code, bookAbbr, items), items);
    WalkItems(t0, engine, code, bookAbbr, items)
  }

  /** A tree that covers the items has a directory and a record for every prefix of
      every item's path. */
  lemma CoveredPrefixes(r: Tree, items: seq<Item>)
    requires Covers(r, items)
    ensures forall i, k :: 0 <= i < |items| && 0 <= k < |items[i].path| ==>
              DirAt(items[i].path, k) in r.dirs && DirAt(items[i].path, k) in r.index
  {
    forall i, k | 0 <= i < |items| && 0 <= k < |items[i].path|
      ensures DirAt(items[i].path, k) in r.dirs && DirAt(items[i].path, k) in r.index
    {
      assert DirAt(items[i].path, k) in DirsFrom(items[i].path, 0);
    }
  }

  // ---------------------------------------------------------------------------
  // Properties
  // ---------------------------------------------------------------------------

  /** Every directory and index record the items would create is already present. */
  predicate Covers(t: Tree, items: seq<Item>)
  {
    forall i :: 0 <= i < |items| ==> DirsFrom(items[i].path, 0) <= t.dirs && DirsFrom(items[i].path, 0) <= t.index.Keys
  }

  /** Nothing is removed and no existing record is rewritten; every directory of every
      item exists afterwards and has a record. */
  lemma {:induction false} WalkItemsGrows(t: Tree, engine: Transliterator, code: string, bookAbbr: string, items: seq<Item>)
    ensures var r := WalkItems(t, engine, code, bookAbbr, items);
            && t.dirs <= r.dirs && t.index.Keys <= r.index.Keys
            && (forall d :: d in t.index ==> r.index[d] == t.index[d])
            && Covers(r, items)
    decreases |items|
  {
    if items != [] {
      var t1 := WalkItem(t, engine, code, bookAbbr, items[0]);
      WalkItemsGrows(t1, engine, code, bookAbbr, items[1..]);
      var r := WalkItems(t, engine, code, bookAbbr, items);
      forall i | 0 <= i < |items|
        ensures DirsFrom(items[i].path, 0) <= r.dirs && DirsFrom(items[i].path, 0) <= r.index.Keys
      {
        if i > 0 {
          assert items[i] == items[1..][i - 1];
        }
      }
    }
  }

  /** The directories of a list of items are those of its head and those of its tail. */
  lemma AllDirsCons(items: seq<Item>)
    requires items != []
    ensures AllDirs(items) == DirsFrom(items[0].path, 0) + AllDirs(items[1..])
  {
    forall d | d in AllDirs(items)
      ensures d in DirsFrom(items[0].path, 0) + AllDirs(items[1..])
    {
      var i, k :| 0 <= i < |items| && 0 <= k < |items[i].path| && d == DirAt(items[i].path, k);
      if i > 0 {
        assert items[1..][i - 1] == items[i];
      }
    }
    forall d | d in AllDirs(items[1..])
      ensures d in AllDirs(items)
    {
      var i, k :| 0 <= i < |items[1..]| && 0 <= k < |items[1..][i].path| && d == DirAt(items[1..][i].path, k);
      assert items[1..][i] == items[i + 1];
    }
  }

  /** The walk adds exactly the directories of the items, and a record in each of them
      and nowhere else. */
  lemma {:induction false} WalkItemsFrame(t: Tree, engine: Transliterator, code: string, bookAbbr: string, items: seq<Item>)
    ensures var r := WalkItems(t, engine, code, bookAbbr, items);
            && r.dirs == t.dirs + AllDirs(items)
            && r.index.Keys == t.index.Keys + AllDirs(items)
    decreases |items|
  {
    if items == [] {
      assert AllDirs(items) == {};
    } else {
      var t1 := WalkItem(t, engine, code, bookAbbr, items[0]);
      WalkItemsFrame(t1, engine, code, bookAbbr, items[1..]);
      AllDirsCons(items);
    }
  }

  /** Walking an item whose directories and records all exist changes nothing. */
  lemma WalkItemCovered(t: Tree, engine: Transliterator, code: string, bookAbbr: string, it: Item)
    requires DirsFrom(it.path, 0) <= t.dirs && DirsFrom(it.path, 0) <= t.index.Keys
    ensures WalkItem(t, engine, code, bookAbbr, it) == t
  {
    var r := WalkItem(t, engine, code, bookAbbr, it);
    assert r.dirs == t.dirs;
    assert r.index == t.index;
  }

  lemma {:induction false} WalkItemsCovered(t: Tree, engine: Transliterator, code: string, bookAbbr: string, items: seq<Item>)
    requires Covers(t, items)
    ensures WalkItems(t, engine, code, bookAbbr, items) == t
    decreases |items|
  {
    if items != [] {
      WalkItemCovered(t, engine, code, bookAbbr, items[0]);
      assert Covers(t, items[1..]) by {
        forall i | 0 <= i < |items[1..]|
          ensures DirsFrom(items[1..][i].path, 0) <= t.dirs && DirsFrom(items[1..][i].path, 0) <= t.index.Keys
        {
          assert items[1..][i] == items[i + 1];
        }
      }
      WalkItemsCovered(t, engine, code, bookAbbr, items[1..]);
    }
  }

  /** Running the materializer twice on the same structure gives the tree of one run. */
  lemma CreateIsIdempotent(t: Tree, engine: Transliterator, code: string, bookAbbr: string, items: seq<Item>)
    ensures var once := CreateHierarchicalFiles(t, engine, code, bookAbbr, items);
            CreateHierarchicalFiles(once, engine, code, bookAbbr, items) == once
  {
    var t0 := Tree(t.dirs + {[]}, t.index);
    var once := WalkItems(t0, engine, code, bookAbbr, items);
    WalkItemsGrows(t0, engine, code, bookAbbr, items);
    assert once.dirs + {[]} == once.dirs;
    assert Tree(once.dirs + {[]}, once.index) == once;
    WalkItemsCovered(once, engine, code, bookAbbr, items);
  }

  /** Whoever walks a directory first writes its record: the record of the segment
      `depth` of item `i` when no earlier item passes through that directory and it had
      no record before. */
  lemma {:induction false} FirstWriterWins(t: Tree, engine: Transliterator, code: string, bookAbbr: string,
                                           items: seq<Item>, i: nat, depth: nat)
    requires i < |items| && depth < |items[i].path|
    requires DirAt(items[i].path, depth) !in t.index
    requires forall h :: 0 <= h < i ==> DirAt(items[i].path, depth) !in DirsFrom(items[h].path, 0)
    ensures var r := WalkItems(t, engine, code, bookAbbr, items);
            && DirAt(items[i].path, depth) in r.index
            && r.index[DirAt(items[i].path, depth)] == RecordAt(engine, code, bookAbbr, items[i].path, depth)
    decreases |items|
  {
    var d := DirAt(items[i].path, depth);
    var t1 := WalkItem(t, engine, code, bookAbbr, items[0]);
    var rest := items[1..];
    assert WalkItems(t, engine, code, bookAbbr, items) == WalkItems(t1, engine, code, bookAbbr, rest);
    if i == 0 {
      assert d in DirsFrom(items[0].path, 0);
      WalkItemsGrows(t1, engine, code, bookAbbr, rest);
    } else {
      assert d !in t1.index;
      ShiftAvoiding(items, i, d);
      FirstWriterWins(t1, engine, code, bookAbbr, rest, i - 1, depth);
    }
  }

  /** Dropping the first item shifts the positions of the others down by one. */
  lemma ShiftAvoiding(items: seq<Item>, i: nat, d: seq<string>)
    requires 0 < i < |items|
    requires forall h :: 0 <= h < i ==> d !in DirsFrom(items[h].path, 0)
    ensures items[1..][i - 1] == items[i]
    ensures forall h :: 0 <= h < i - 1 ==> d !in DirsFrom(items[1..][h].path, 0)
  {
    forall h | 0 <= h < i - 1
      ensures d !in DirsFrom(items[1..][h].path, 0)
    {
      assert items[1..][h] == items[h + 1];
    }
  }

  /** With a single ancestor the parent label is that ancestor's name; with none it is
      the book abbreviation; names free of `>` can be read back from a longer label. */
  lemma ParentLabelSplits(ancestors: seq<string>, bookAbbr: string)
    requires ancestors != []
    requires forall i :: 0 <= i < |ancestors| ==> '>' !in ancestors[i]
    ensures Split(ParentLabel(ancestors, bookAbbr), ParentSeparator) == ancestors
  {
    forall i | 0 <= i < |ancestors| - 1
      ensures CleanBefore(ancestors[i], ParentSeparator)
    {
      CleanBeforeSecond(ancestors[i], ParentSeparator);
    }
    AbsentSecond(ancestors[|ancestors| - 1], ParentSeparator);
    SplitJoin(ancestors, ParentSeparator);
  }
}
