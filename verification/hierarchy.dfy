/**
 The table-of-contents hierarchy resolver (`build_hierarchical_structure`).

 A flat, ordered sequence of typed TOC entries becomes one item per recognised
 entry, each carrying a path of segments. Five level counters and a running path
 are threaded through the entries: an entry at level `L` zeroes the counters below
 `L`, increments counter `L`, cuts the running path to at most `L` segments and
 appends its own segment.

 `StateAfter` and `Resolve` are defined on the prefix of the input processed so far,
 so each lemma is an invariant of the source's loop.
 */
module Hierarchy {
  import opened TextUtil

  /** A row of the `tocs` table. `kind` is the `type` column. */
  datatype TocEntry = TocEntry(bookId: string, name: string, kind: string, page: int)

  datatype PathSegment = PathSegment(kind: string, name: string, page: int, counter: nat, level: nat)

  /** One entry of the resolved structure: the TOC row, a copy of the running path,
      and the counter of the entry's own level. */
  datatype Item = Item(toc: TocEntry, path: seq<PathSegment>, counter: nat)

  /** The loop state: one counter per level and the running path. */
  datatype State = State(counters: seq<nat>, path: seq<PathSegment>)

  /** The recognised entry types, shallowest first. */
  const TypeHierarchy: seq<string> := ["chapter", "title", "subhead", "subsubhead", "subsubhead-head"]

  const LevelCount: nat := 5

  const Initial: State := State([0, 0, 0, 0, 0], [])

  predicate Valid(st: State)
  {
    |st.counters| == LevelCount
  }

  function Min(a: nat, b: nat): nat
  {
    if a <= b then a else b
  }

  /** `xs.index(x)`: the first position of `x`, or `None` where Python raises. */
  function IndexOf(xs: seq<string>, x: string): (r: Option<nat>)
    ensures r.None? <==> x !in xs
    ensures r.Some? ==> r.value < |xs| && xs[r.value] == x
    ensures r.Some? ==> forall k :: 0 <= k < r.value ==> xs[k] != x
    decreases |xs|
  {
    if xs == [] then None
    else if xs[0] == x then Some(0)
    else
      match IndexOf(xs[1..], x)
      case None => None
      case Some(i) => Some(i + 1)
  }

  /** The level of a TOC type; `None` for a type the resolver drops. */
  function LevelOf(kind: string): (r: Option<nat>)
    ensures r.Some? <==> kind in TypeHierarchy
    ensures r.Some? ==> r.value < LevelCount && TypeHierarchy[r.value] == kind
  {
    IndexOf(TypeHierarchy, kind)
  }

  /** The loop that zeroes every counter from level `i` on. */
  function ResetFrom(counters: seq<nat>, i: nat): (c: seq<nat>)
    requires i <= |counters|
    ensures |c| == |counters|
    ensures forall k :: 0 <= k < i ==> c[k] == counters[k]
    ensures forall k :: i <= k < |c| ==> c[k] == 0
    decreases |counters| - i
  {
    if i == |counters| then counters else ResetFrom(counters[i := 0], i + 1)
  }

  /** Processing one entry of a recognised type at `level`: shallower counters are kept,
      deeper ones are zeroed, and the entry's own counter goes up by one. */
  function Bump(counters: seq<nat>, level: nat): (c: seq<nat>)
    requires |counters| == LevelCount && level < LevelCount
    ensures |c| == LevelCount
    ensures forall k :: 0 <= k < level ==> c[k] == counters[k]
    ensures c[level] == counters[level] + 1
    ensures forall k :: level < k < LevelCount ==> c[k] == 0
  {
    var z := ResetFrom(counters, level + 1);
    z[level := z[level] + 1]
  }

  /** One iteration of the loop. An entry of an unknown type changes nothing and emits
      nothing. Otherwise the new path is the old one cut to `min(len, L)` segments
      plus the entry's own segment, and the emitted item carries that path. */
  function Step(st: State, toc: TocEntry): (res: (State, Option<Item>))
    requires Valid(st)
    ensures Valid(res.0)
    ensures LevelOf(toc.kind).None? ==> res == (st, None)
    ensures LevelOf(toc.kind).Some? ==>
              var L := LevelOf(toc.kind).value;
              var st' := res.0;
              var keep := Min(|st.path|, L);
              && (forall k :: 0 <= k < L ==> st'.counters[k] == st.counters[k])
              && st'.counters[L] == st.counters[L] + 1
              && (forall k :: L < k < LevelCount ==> st'.counters[k] == 0)
              && |st'.path| == keep + 1
              && st'.path[..keep] == st.path[..keep]
              && st'.path[keep] == PathSegment(toc.kind, toc.name, toc.page, st'.counters[L], L)
              && res.1 == Some(Item(toc, st'.path, st'.counters[L]))
  {
    match LevelOf(toc.kind)
    case None => (st, None)
    case Some(L) =>
      var c := Bump(st.counters, L);
      var p := st.path[..Min(|st.path|, L)] + [PathSegment(toc.kind, toc.name, toc.page, c[L], L)];
      (State(c, p), Some(Item(toc, p, c[L])))
  }

  /** The loop state after the entries `tocs`. */
  function StateAfter(tocs: seq<TocEntry>): (st: State)
    ensures Valid(st)
    decreases |tocs|
  {
    if tocs == [] then Initial
    else Step(StateAfter(tocs[..|tocs| - 1]), tocs[|tocs| - 1]).0
  }

  function Emitted(o: Option<Item>): seq<Item>
  {
    if o.Some? then [o.value] else []
  }

  /** `build_hierarchical_structure(tocs)`. */
  function Resolve(tocs: seq<TocEntry>): seq<Item>
    decreases |tocs|
  {
    if tocs == [] then []
    else
      var prev := tocs[..|tocs| - 1];
      Resolve(prev) + Emitted(Step(StateAfter(prev), tocs[|tocs| - 1]).1)
  }

  /** The entries of a recognised type, in input order. */
  function Recognised(tocs: seq<TocEntry>): (r: seq<TocEntry>)
    ensures forall e :: e in r ==> e in tocs && LevelOf(e.kind).Some?
    decreases |tocs|
  {
    if tocs == [] then []
    else
      var prev := Recognised(tocs[..|tocs| - 1]);
      var e := tocs[|tocs| - 1];
      if LevelOf(e.kind).Some? then prev + [e] else prev
  }

  /** The levels of the recognised entries, in input order. */
  function RecognisedLevels(tocs: seq<TocEntry>): (ls: seq<nat>)
    ensures |ls| == |Recognised(tocs)|
    ensures forall i :: 0 <= i < |ls| ==> ls[i] < LevelCount
    decreases |tocs|
  {
    if tocs == [] then []
    else
      var prev := RecognisedLevels(tocs[..|tocs| - 1]);
      match LevelOf(tocs[|tocs| - 1].kind)
      case None => prev
      case Some(L) => prev + [L]
  }

  // ---------------------------------------------------------------------------
  // Items and entries
  // ---------------------------------------------------------------------------

  /** The unfolding of `Resolve` on the last entry. */
  lemma ResolveLast(tocs: seq<TocEntry>)
    requires tocs != []
    ensures var prev := tocs[..|tocs| - 1];
            var step := Step(StateAfter(prev), tocs[|tocs| - 1]);
            && StateAfter(tocs) == step.0
            && Resolve(tocs) == Resolve(prev) + Emitted(step.1)
  {
  }

  /** One item per recognised entry, in input order; other entries are dropped. */
  lemma {:induction false} ResolveKeepsRecognised(tocs: seq<TocEntry>)
    ensures |Resolve(tocs)| == |Recognised(tocs)|
    ensures forall i :: 0 <= i < |Resolve(tocs)| ==> Resolve(tocs)[i].toc == Recognised(tocs)[i]
    decreases |tocs|
  {
    if tocs != [] {
      var prev := tocs[..|tocs| - 1];
      var e := tocs[|tocs| - 1];
      var st := StateAfter(prev);
      var step := Step(st, e);
      ResolveKeepsRecognised(prev);
      ResolveLast(tocs);
      StepEmits(st, e);
      var R0, G0 := Resolve(prev), Recognised(prev);
      if step.1.Some? {
        assert Resolve(tocs) == R0 + [step.1.value];
        assert Recognised(tocs) == G0 + [e];
        forall i | 0 <= i < |Resolve(tocs)|
          ensures Resolve(tocs)[i].toc == Recognised(tocs)[i]
        {
          if i < |R0| {
            assert Resolve(tocs)[i] == R0[i] && Recognised(tocs)[i] == G0[i];
          }
        }
      } else {
        assert Resolve(tocs) == R0;
        assert Recognised(tocs) == G0;
      }
    }
  }

  /** What one step emits: nothing, and no change of state, for an unknown type;
      otherwise an item for the entry that carries the new running path. */
  lemma StepEmits(st: State, e: TocEntry)
    requires Valid(st)
    ensures Step(st, e).1.None? <==> LevelOf(e.kind).None?
    ensures Step(st, e).1.None? ==> Step(st, e).0 == st
    ensures Step(st, e).1.Some? ==> Step(st, e).1.value.toc == e && Step(st, e).1.value.path == Step(st, e).0.path
  {
  }

  /** The running path is the path of the last emitted item (empty before the first). */
  lemma {:induction false} StatePathIsLastPath(tocs: seq<TocEntry>)
    ensures Resolve(tocs) == [] ==> StateAfter(tocs).path == []
    ensures Resolve(tocs) != [] ==> StateAfter(tocs).path == Resolve(tocs)[|Resolve(tocs)| - 1].path
    decreases |tocs|
  {
    if tocs != [] {
      var prev := tocs[..|tocs| - 1];
      var st := StateAfter(prev);
      var step := Step(st, tocs[|tocs| - 1]);
      StatePathIsLastPath(prev);
      ResolveLast(tocs);
      StepEmits(st, tocs[|tocs| - 1]);
      var R := Resolve(tocs);
      if step.1.Some? {
        assert R == Resolve(prev) + [step.1.value];
        assert R[|R| - 1] == step.1.value;
      } else {
        assert R == Resolve(prev);
      }
    }
  }

  /** The shape every item has: a non-empty path of at most `level + 1` segments whose
      last segment is the entry itself and carries the item's counter, at least 1. */
  predicate Shaped(it: Item)
  {
    && |it.path| >= 1
    && var last := it.path[|it.path| - 1];
    && |it.path| <= last.level + 1
    && last.level < LevelCount && TypeHierarchy[last.level] == it.toc.kind
    && last.kind == it.toc.kind && last.name == it.toc.name && last.page == it.toc.page
    && it.counter == last.counter && it.counter >= 1
  }

  /** The level of an item: that of the last segment of its path. */
  function ItemLevel(it: Item): nat
    requires |it.path| >= 1
  {
    it.path[|it.path| - 1].level
  }

  /** After the item `it`, the counter of its level is its counter and every deeper
      counter is 0. */
  predicate CountersMatch(st: State, it: Item)
  {
    && Valid(st) && Shaped(it)
    && st.counters[ItemLevel(it)] == it.counter
    && forall k :: ItemLevel(it) < k < LevelCount ==> st.counters[k] == 0
  }

  /** The item one step emits is shaped, sits at the entry's level and matches the new
      counters. */
  lemma StepItem(st: State, e: TocEntry)
    requires Valid(st)
    ensures Step(st, e).1.Some? ==>
              && LevelOf(e.kind).Some?
              && Shaped(Step(st, e).1.value)
              && ItemLevel(Step(st, e).1.value) == LevelOf(e.kind).value
              && CountersMatch(Step(st, e).0, Step(st, e).1.value)
  {
  }

  /** A property of every element survives appending an element that has it. */
  lemma AllSnoc(r: seq<Item>, x: Item, p: Item -> bool)
    requires forall i :: 0 <= i < |r| ==> p(r[i])
    requires p(x)
    ensures forall i :: 0 <= i < |r + [x]| ==> p((r + [x])[i])
  {
  }

  /** A relation between neighbours survives appending an element related to the last. */
  lemma PairsSnoc(r: seq<Item>, x: Item, p: (Item, Item) -> bool)
    requires forall k :: 0 <= k < |r| - 1 ==> p(r[k], r[k + 1])
    requires r != [] ==> p(r[|r| - 1], x)
    ensures forall k :: 0 <= k < |r + [x]| - 1 ==> p((r + [x])[k], (r + [x])[k + 1])
  {
    var s := r + [x];
    forall k | 0 <= k < |s| - 1
      ensures p(s[k], s[k + 1])
    {
      if k + 1 < |r| {
        assert s[k] == r[k] && s[k + 1] == r[k + 1];
      } else {
        assert s[k] == r[|r| - 1] && s[k + 1] == x;
      }
    }
  }

  /** Every item is shaped. A path can be shorter than `level + 1`, when the input skips
      a level. */
  lemma {:induction false} ItemShape(tocs: seq<TocEntry>)
    ensures forall i :: 0 <= i < |Resolve(tocs)| ==> Shaped(Resolve(tocs)[i])
    decreases |tocs|
  {
    if tocs != [] {
      var prev := tocs[..|tocs| - 1];
      var st := StateAfter(prev);
      var step := Step(st, tocs[|tocs| - 1]);
      ItemShape(prev);
      ResolveLast(tocs);
      StepItem(st, tocs[|tocs| - 1]);
      var R0 := Resolve(prev);
      if step.1.Some? {
        assert Resolve(tocs) == R0 + [step.1.value];
        AllSnoc(R0, step.1.value, Shaped);
      } else {
        assert Resolve(tocs) == R0;
      }
    }
  }

  /** `b`'s path is `a`'s path cut short plus one segment. */
  predicate PrefixStep(a: Item, b: Item)
  {
    && 1 <= |b.path| <= |a.path| + 1
    && b.path[..|b.path| - 1] == a.path[..|b.path| - 1]
  }

  /** The item one step emits extends the path of the item `a` the state ends with. */
  lemma StepExtendsPath(st: State, a: Item, e: TocEntry)
    requires Valid(st) && st.path == a.path
    ensures Step(st, e).1.Some? ==> PrefixStep(a, Step(st, e).1.value)
  {
    if LevelOf(e.kind).Some? {
      var p := Step(st, e).0.path;
      var keep := Min(|st.path|, LevelOf(e.kind).value);
      assert |p| - 1 == keep;
    }
  }

  /** The item one step emits extends the path of the last item emitted before it. */
  lemma PrefixAfterLast(prev: seq<TocEntry>, e: TocEntry)
    requires Resolve(prev) != []
    ensures Step(StateAfter(prev), e).1.Some? ==>
              PrefixStep(Resolve(prev)[|Resolve(prev)| - 1], Step(StateAfter(prev), e).1.value)
  {
    StatePathIsLastPath(prev);
    StepExtendsPath(StateAfter(prev), Resolve(prev)[|Resolve(prev)| - 1], e);
  }

  /** Prefix consistency: each path agrees with the previous item's path on every segment
      before its own last one, and is at most one segment longer. */
  lemma {:induction false} PrefixConsistent(tocs: seq<TocEntry>)
    ensures forall k :: 0 <= k < |Resolve(tocs)| - 1 ==> PrefixStep(Resolve(tocs)[k], Resolve(tocs)[k + 1])
    decreases |tocs|
  {
    if tocs != [] {
      var prev := tocs[..|tocs| - 1];
      var e := tocs[|tocs| - 1];
      var st := StateAfter(prev);
      var step := Step(st, e);
      PrefixConsistent(prev);
      ResolveLast(tocs);
      StepEmits(st, e);
      var R0 := Resolve(prev);
      if step.1.Some? {
        assert Resolve(tocs) == R0 + [step.1.value];
        if R0 != [] {
          PrefixAfterLast(prev, e);
        }
        PairsSnoc(R0, step.1.value, PrefixStep);
      } else {
        assert Resolve(tocs) == R0;
      }
    }
  }

  /** Items already emitted are never altered by later entries. */
  lemma {:induction false} ResolveIsStable(tocs: seq<TocEntry>, more: seq<TocEntry>)
    ensures |Resolve(tocs)| <= |Resolve(tocs + more)|
    ensures Resolve(tocs + more)[..|Resolve(tocs)|] == Resolve(tocs)
    decreases |more|
  {
    if more == [] {
      assert tocs + more == tocs;
    } else {
      var all := tocs + more;
      var shorter := tocs + more[..|more| - 1];
      assert all[..|all| - 1] == shorter;
      ResolveIsStable(tocs, more[..|more| - 1]);
      ResolveLast(all);
      var R1 := Resolve(shorter);
      var e := Emitted(Step(StateAfter(shorter), all[|all| - 1]).1);
      assert Resolve(all) == R1 + e;
      assert (R1 + e)[..|Resolve(tocs)|] == R1[..|Resolve(tocs)|];
    }
  }

  // ---------------------------------------------------------------------------
  // Counters
  // ---------------------------------------------------------------------------

  /** After the last item, its level's counter is its counter and deeper counters are 0. */
  lemma {:induction false} CountersAfterLastItem(tocs: seq<TocEntry>)
    ensures Resolve(tocs) != [] ==> CountersMatch(StateAfter(tocs), Resolve(tocs)[|Resolve(tocs)| - 1])
    decreases |tocs|
  {
    if tocs != [] {
      var prev := tocs[..|tocs| - 1];
      var st := StateAfter(prev);
      var step := Step(st, tocs[|tocs| - 1]);
      CountersAfterLastItem(prev);
      ResolveLast(tocs);
      StepEmits(st, tocs[|tocs| - 1]);
      StepItem(st, tocs[|tocs| - 1]);
      var R := Resolve(tocs);
      if step.1.Some? {
        assert R == Resolve(prev) + [step.1.value];
        assert R[|R| - 1] == step.1.value;
      } else {
        assert R == Resolve(prev);
      }
    }
  }

  /** `b` directly follows `a`: right after a shallower entry `b` gets counter 1; right
      after an entry of its own level it gets that entry's counter plus one. */
  predicate CounterStep(a: Item, b: Item)
  {
    && Shaped(a) && Shaped(b)
    && (ItemLevel(a) < ItemLevel(b) ==> b.counter == 1)
    && (ItemLevel(a) == ItemLevel(b) ==> b.counter == a.counter + 1)
  }

  /** The item a recognised entry emits right after the item `a`, from the state `a`
      left behind. */
  lemma CounterAfterItem(st: State, a: Item, e: TocEntry)
    requires CountersMatch(st, a) && LevelOf(e.kind).Some?
    ensures Step(st, e).1.Some? && CounterStep(a, Step(st, e).1.value)
  {
    StepEmits(st, e);
    StepItem(st, e);
  }

  /** The item a recognised entry emits right after the last item emitted before it. */
  lemma CounterAfterLast(prev: seq<TocEntry>, e: TocEntry)
    requires Resolve(prev) != [] && LevelOf(e.kind).Some?
    ensures Step(StateAfter(prev), e).1.Some?
    ensures CounterStep(Resolve(prev)[|Resolve(prev)| - 1], Step(StateAfter(prev), e).1.value)
  {
    CountersAfterLastItem(prev);
    CounterAfterItem(StateAfter(prev), Resolve(prev)[|Resolve(prev)| - 1], e);
  }

  /** Counters between consecutive items. */
  lemma {:induction false} ConsecutiveCounters(tocs: seq<TocEntry>)
    ensures forall k :: 0 <= k < |Resolve(tocs)| - 1 ==> CounterStep(Resolve(tocs)[k], Resolve(tocs)[k + 1])
    decreases |tocs|
  {
    if tocs != [] {
      var prev := tocs[..|tocs| - 1];
      var e := tocs[|tocs| - 1];
      var st := StateAfter(prev);
      var step := Step(st, e);
      ConsecutiveCounters(prev);
      ResolveLast(tocs);
      StepEmits(st, e);
      var R0 := Resolve(prev);
      if step.1.Some? {
        assert Resolve(tocs) == R0 + [step.1.value];
        if R0 != [] {
          CounterAfterLast(prev, e);
        }
        PairsSnoc(R0, step.1.value, CounterStep);
      } else {
        assert Resolve(tocs) == R0;
      }
    }
  }

  /** The levels after the last entry shallower than `L`. */
  function SinceReset(ls: seq<nat>, L: nat): seq<nat>
    decreases |ls|
  {
    if ls == [] then []
    else if ls[|ls| - 1] < L then []
    else SinceReset(ls[..|ls| - 1], L) + [ls[|ls| - 1]]
  }

  function CountOf(ls: seq<nat>, L: nat): nat
    decreases |ls|
  {
    if ls == [] then 0
    else CountOf(ls[..|ls| - 1], L) + (if ls[|ls| - 1] == L then 1 else 0)
  }

  lemma CountOfSnoc(ls: seq<nat>, x: nat, L: nat)
    ensures CountOf(ls + [x], L) == CountOf(ls, L) + (if x == L then 1 else 0)
  {
    assert (ls + [x])[..|ls|] == ls;
  }

  /** Every counter counts the entries at its level since the last shallower one. */
  predicate CountsSinceReset(st: State, ls: seq<nat>)
    requires Valid(st)
  {
    forall L :: 0 <= L < LevelCount ==> st.counters[L] == CountOf(SinceReset(ls, L), L)
  }

  lemma SinceResetSnoc(ls: seq<nat>, m: nat, L: nat)
    ensures SinceReset(ls + [m], L) == if m < L then [] else SinceReset(ls, L) + [m]
  {
    assert (ls + [m])[..|ls|] == ls;
  }

  /** One recognised entry at level `m` keeps the counters counting. */
  lemma CountStep(st: State, ls: seq<nat>, e: TocEntry, m: nat)
    requires Valid(st) && CountsSinceReset(st, ls)
    requires LevelOf(e.kind) == Some(m)
    ensures CountsSinceReset(Step(st, e).0, ls + [m])
  {
    var c := Bump(st.counters, m);
    assert Step(st, e).0.counters == c;
    forall L | 0 <= L < LevelCount
      ensures c[L] == CountOf(SinceReset(ls + [m], L), L)
    {
      SinceResetSnoc(ls, m, L);
      if m < L {
        assert c[L] == 0;
      } else {
        CountOfSnoc(SinceReset(ls, L), m, L);
        if m == L {
          assert c[L] == st.counters[L] + 1;
        } else {
          assert c[L] == st.counters[L];
        }
      }
    }
  }

  /** Counter `L` is the number of level-`L` entries since the last shallower entry. */
  lemma {:induction false} CountersCountSinceReset(tocs: seq<TocEntry>)
    ensures CountsSinceReset(StateAfter(tocs), RecognisedLevels(tocs))
    decreases |tocs|
  {
    if tocs == [] {
      assert StateAfter(tocs) == Initial && RecognisedLevels(tocs) == [];
    } else {
      var prev := tocs[..|tocs| - 1];
      var e := tocs[|tocs| - 1];
      var st := StateAfter(prev);
      var ls := RecognisedLevels(prev);
      CountersCountSinceReset(prev);
      ResolveLast(tocs);
      StepEmits(st, e);
      match LevelOf(e.kind)
      case None =>
        assert StateAfter(tocs) == st && RecognisedLevels(tocs) == ls;
      case Some(m) =>
        CountStep(st, ls, e, m);
        assert StateAfter(tocs) == Step(st, e).0 && RecognisedLevels(tocs) == ls + [m];
    }
  }

  /** The item of a recognised entry is numbered by counting, among the entries since the
      last shallower one, those at its own level, itself included. */
  lemma ItemCounterCountsSiblings(tocs: seq<TocEntry>)
    requires tocs != [] && LevelOf(tocs[|tocs| - 1].kind).Some?
    ensures var L := LevelOf(tocs[|tocs| - 1].kind).value;
            var R := Resolve(tocs);
            R != [] && R[|R| - 1].counter == CountOf(SinceReset(RecognisedLevels(tocs), L), L)
  {
    var prev := tocs[..|tocs| - 1];
    var e := tocs[|tocs| - 1];
    var st := StateAfter(prev);
    CountersCountSinceReset(tocs);
    ResolveLast(tocs);
    StepEmits(st, e);
    StepItem(st, e);
    var R := Resolve(tocs);
    assert R == Resolve(prev) + [Step(st, e).1.value];
    assert R[|R| - 1] == Step(st, e).1.value;
  }

  // ---------------------------------------------------------------------------
  // Well-nested input
  // ---------------------------------------------------------------------------

  /** The input starts at the top level and never goes more than one level deeper. */
  predicate WellNested(ls: seq<nat>)
  {
    && (ls != [] ==> ls[0] == 0)
    && forall i :: 1 <= i < |ls| ==> ls[i] <= ls[i - 1] + 1
  }

  /** Segment `m` of the running path sits at level `m` and carries counter `m`. */
  predicate Aligned(st: State)
    requires Valid(st)
  {
    && |st.path| <= LevelCount
    && forall m :: 0 <= m < |st.path| ==> st.path[m].level == m && st.path[m].counter == st.counters[m]
  }

  /** A path whose segment `m` sits at level `m`, ending at the level of its last segment. */
  predicate LevelPath(p: seq<PathSegment>)
  {
    && |p| >= 1 && |p| == p[|p| - 1].level + 1
    && forall m :: 0 <= m < |p| ==> p[m].level == m
  }

  predicate LevelItem(it: Item)
  {
    LevelPath(it.path)
  }

  /** An entry at most one level below the running path keeps the path aligned, and the
      new path has exactly `level + 1` segments. */
  lemma AlignedStep(st: State, e: TocEntry)
    requires Valid(st) && Aligned(st)
    requires LevelOf(e.kind).Some? && LevelOf(e.kind).value <= |st.path|
    ensures Aligned(Step(st, e).0)
    ensures |Step(st, e).0.path| == LevelOf(e.kind).value + 1
    ensures LevelPath(Step(st, e).0.path)
  {
    var L := LevelOf(e.kind).value;
    var st' := Step(st, e).0;
    assert Min(|st.path|, L) == L;
    forall m | 0 <= m < |st'.path|
      ensures st'.path[m].level == m && st'.path[m].counter == st'.counters[m]
    {
      if m < L {
        assert st'.path[m] == st'.path[..L][m] == st.path[..L][m];
      }
    }
  }

  /** The length of the running path after well-nested levels `ls`. */
  function Depth(ls: seq<nat>): nat
  {
    if ls == [] then 0 else ls[|ls| - 1] + 1
  }

  /** The well-nested condition holds on every prefix. */
  lemma WellNestedPrefix(ls: seq<nat>, x: nat)
    requires WellNested(ls + [x])
    ensures WellNested(ls)
    ensures x <= Depth(ls)
  {
    var all := ls + [x];
    forall i | 1 <= i < |ls|
      ensures ls[i] <= ls[i - 1] + 1
    {
      assert all[i] == ls[i] && all[i - 1] == ls[i - 1];
    }
    if ls == [] {
      assert all[0] == x;
    } else {
      assert all[0] == ls[0];
      assert all[|ls|] == x && all[|ls| - 1] == ls[|ls| - 1];
    }
  }

  /** One recognised entry that goes at most one level deeper keeps the running path
      aligned and one segment per level. */
  lemma NestedStep(st: State, ls: seq<nat>, e: TocEntry)
    requires Valid(st) && Aligned(st) && |st.path| == Depth(ls)
    requires LevelOf(e.kind).Some? && WellNested(ls + [LevelOf(e.kind).value])
    ensures Aligned(Step(st, e).0)
    ensures |Step(st, e).0.path| == Depth(ls + [LevelOf(e.kind).value])
  {
    var L := LevelOf(e.kind).value;
    WellNestedPrefix(ls, L);
    AlignedStep(st, e);
    assert Depth(ls + [L]) == L + 1;
  }

  /** For well-nested input the running path is aligned with the counters and has one
      segment per level down to the last entry's. */
  lemma {:induction false} WellNestedState(tocs: seq<TocEntry>)
    requires WellNested(RecognisedLevels(tocs))
    ensures Aligned(StateAfter(tocs))
    ensures |StateAfter(tocs).path| == Depth(RecognisedLevels(tocs))
    decreases |tocs|
  {
    if tocs == [] {
      assert StateAfter(tocs) == Initial && RecognisedLevels(tocs) == [];
    } else {
      var prev := tocs[..|tocs| - 1];
      var e := tocs[|tocs| - 1];
      var st := StateAfter(prev);
      var ls := RecognisedLevels(prev);
      ResolveLast(tocs);
      StepEmits(st, e);
      if LevelOf(e.kind).None? {
        assert RecognisedLevels(tocs) == ls;
        WellNestedState(prev);
        assert StateAfter(tocs) == st;
      } else {
        var L := LevelOf(e.kind).value;
        assert RecognisedLevels(tocs) == ls + [L];
        WellNestedPrefix(ls, L);
        WellNestedState(prev);
        NestedStep(st, ls, e);
        assert StateAfter(tocs) == Step(st, e).0;
      }
    }
  }

  /** For well-nested input every path has exactly `level + 1` segments and segment `m`
      sits at level `m`. */
  lemma {:induction false} WellNestedPaths(tocs: seq<TocEntry>)
    requires WellNested(RecognisedLevels(tocs))
    ensures forall i :: 0 <= i < |Resolve(tocs)| ==> LevelItem(Resolve(tocs)[i])
    decreases |tocs|
  {
    if tocs != [] {
      var prev := tocs[..|tocs| - 1];
      var e := tocs[|tocs| - 1];
      var st := StateAfter(prev);
      var step := Step(st, e);
      var ls := RecognisedLevels(prev);
      var R0 := Resolve(prev);
      ResolveLast(tocs);
      StepEmits(st, e);
      match LevelOf(e.kind)
      case None =>
        assert RecognisedLevels(tocs) == ls;
        WellNestedPaths(prev);
        assert Resolve(tocs) == R0;
      case Some(L) =>
        assert RecognisedLevels(tocs) == ls + [L];
        WellNestedPrefix(ls, L);
        WellNestedPaths(prev);
        WellNestedState(prev);
        AlignedStep(st, e);
        assert Resolve(tocs) == R0 + [step.1.value];
        AllSnoc(R0, step.1.value, LevelItem);
    }
  }

  // ---------------------------------------------------------------------------
  // Examples
  // ---------------------------------------------------------------------------

  function CounterPath(it: Item): seq<nat>
  {
    seq(|it.path|, m requires 0 <= m < |it.path| => it.path[m].counter)
  }

  const ExA: TocEntry := TocEntry("b", "A", "chapter", 1)
  const ExX: TocEntry := TocEntry("b", "X", "title", 1)
  const ExY: TocEntry := TocEntry("b", "Y", "title", 5)
  const ExB: TocEntry := TocEntry("b", "B", "chapter", 10)
  const SegA: PathSegment := PathSegment("chapter", "A", 1, 1, 0)
  const SegX: PathSegment := PathSegment("title", "X", 1, 1, 1)
  const SegY: PathSegment := PathSegment("title", "Y", 5, 2, 1)
  const SegB: PathSegment := PathSegment("chapter", "B", 10, 2, 0)
  const ItA: Item := Item(ExA, [SegA], 1)
  const ItX: Item := Item(ExX, [SegA, SegX], 1)
  const ItY: Item := Item(ExY, [SegA, SegY], 2)
  const ItB: Item := Item(ExB, [SegB], 2)

  /** Appending one entry is one more step. */
  lemma ResolveSnoc(prev: seq<TocEntry>, e: TocEntry)
    ensures StateAfter(prev + [e]) == Step(StateAfter(prev), e).0
    ensures Resolve(prev + [e]) == Resolve(prev) + Emitted(Step(StateAfter(prev), e).1)
  {
    var t := prev + [e];
    assert t[..|t| - 1] == prev && t[|t| - 1] == e;
  }

  lemma ExampleStepA()
    ensures Step(Initial, ExA) == (State([1, 0, 0, 0, 0], [SegA]), Some(ItA))
  {
    assert LevelOf(ExA.kind) == Some(0);
    var res := Step(Initial, ExA);
    assert res.0.counters == [1, 0, 0, 0, 0];
    assert res.0.path == [SegA];
  }

  lemma ExampleStepX()
    ensures Step(State([1, 0, 0, 0, 0], [SegA]), ExX) == (State([1, 1, 0, 0, 0], [SegA, SegX]), Some(ItX))
  {
    var st := State([1, 0, 0, 0, 0], [SegA]);
    assert LevelOf(ExX.kind) == Some(1);
    assert Min(|st.path|, 1) == 1 && st.path[..1] == [SegA];
    var res := Step(st, ExX);
    assert res.0.counters == [1, 1, 0, 0, 0];
    assert res.0.path == [SegA, SegX];
  }

  lemma ExampleStepY()
    ensures Step(State([1, 1, 0, 0, 0], [SegA, SegX]), ExY) == (State([1, 2, 0, 0, 0], [SegA, SegY]), Some(ItY))
  {
    var st := State([1, 1, 0, 0, 0], [SegA, SegX]);
    assert LevelOf(ExY.kind) == Some(1);
    assert Min(|st.path|, 1) == 1 && st.path[..1] == [SegA];
    var res := Step(st, ExY);
    assert res.0.counters == [1, 2, 0, 0, 0];
    assert res.0.path == [SegA, SegY];
  }

  lemma ExampleStepB()
    ensures Step(State([1, 2, 0, 0, 0], [SegA, SegY]), ExB) == (State([2, 0, 0, 0, 0], [SegB]), Some(ItB))
  {
    var st := State([1, 2, 0, 0, 0], [SegA, SegY]);
    assert LevelOf(ExB.kind) == Some(0);
    assert Min(|st.path|, 0) == 0 && st.path[..0] == [];
    var res := Step(st, ExB);
    assert res.0.counters == [2, 0, 0, 0, 0];
    assert res.0.path == [SegB];
  }

  /** A step from a known state and result extends both. */
  lemma ResolveFrom(prev: seq<TocEntry>, e: TocEntry, st: State, r: seq<Item>, st': State, it: Item)
    requires StateAfter(prev) == st && Resolve(prev) == r && Step(st, e) == (st', Some(it))
    ensures StateAfter(prev + [e]) == st' && Resolve(prev + [e]) == r + [it]
  {
    ResolveSnoc(prev, e);
  }

  lemma Snoc0<T>(x: T)
    ensures [] + [x] == [x]
  {
  }

  lemma Snoc1<T>(a: T, x: T)
    ensures [a] + [x] == [a, x]
  {
  }

  lemma Snoc2<T>(a: T, b: T, x: T)
    ensures [a, b] + [x] == [a, b, x]
  {
  }

  lemma Snoc3<T>(a: T, b: T, c: T, x: T)
    ensures [a, b, c] + [x] == [a, b, c, x]
  {
  }

  lemma ExampleFirst(a: TocEntry)
    requires a == ExA
    ensures StateAfter([a]) == State([1, 0, 0, 0, 0], [SegA]) && Resolve([a]) == [ItA]
  {
    assert StateAfter([]) == Initial && Resolve([]) == [];
    ExampleStepA();
    ResolveFrom([], a, Initial, [], State([1, 0, 0, 0, 0], [SegA]), ItA);
    Snoc0(a);
    Snoc0(ItA);
  }

  lemma ExampleSecond(a: TocEntry, x: TocEntry)
    requires a == ExA && x == ExX
    ensures StateAfter([a, x]) == State([1, 1, 0, 0, 0], [SegA, SegX]) && Resolve([a, x]) == [ItA, ItX]
  {
    ExampleFirst(a);
    ExampleStepX();
    ResolveFrom([a], x, State([1, 0, 0, 0, 0], [SegA]), [ItA], State([1, 1, 0, 0, 0], [SegA, SegX]), ItX);
    Snoc1(a, x);
    Snoc1(ItA, ItX);
  }

  lemma ExampleThird(a: TocEntry, x: TocEntry, y: TocEntry)
    requires a == ExA && x == ExX && y == ExY
    ensures StateAfter([a, x, y]) == State([1, 2, 0, 0, 0], [SegA, SegY])
    ensures Resolve([a, x, y]) == [ItA, ItX, ItY]
  {
    ExampleSecond(a, x);
    ExampleStepY();
    ResolveFrom([a, x], y, State([1, 1, 0, 0, 0], [SegA, SegX]), [ItA, ItX], State([1, 2, 0, 0, 0], [SegA, SegY]), ItY);
    Snoc2(a, x, y);
    Snoc2(ItA, ItX, ItY);
  }

  /** The four entries resolve one step at a time. */
  lemma ExampleResolve(a: TocEntry, x: TocEntry, y: TocEntry, b: TocEntry)
    requires a == ExA && x == ExX && y == ExY && b == ExB
    ensures Resolve([a, x, y, b]) == [ItA, ItX, ItY, ItB]
  {
    ExampleThird(a, x, y);
    ExampleStepB();
    ResolveFrom([a, x, y], b, State([1, 2, 0, 0, 0], [SegA, SegY]), [ItA, ItX, ItY], State([2, 0, 0, 0, 0], [SegB]), ItB);
    Snoc3(a, x, y, b);
    Snoc3(ItA, ItX, ItY, ItB);
  }

  lemma CounterPathOne(it: Item)
    requires |it.path| == 1
    ensures CounterPath(it) == [it.path[0].counter]
  {
  }

  lemma CounterPathTwo(it: Item)
    requires |it.path| == 2
    ensures CounterPath(it) == [it.path[0].counter, it.path[1].counter]
  {
  }

  /** chapter A, title X, title Y, chapter B yield the counter paths [1], [1,1], [1,2], [2]:
      the second title continues the count and the second chapter drops the titles. */
  lemma ChapterTitleExample()
    ensures var R := Resolve([ExA, ExX, ExY, ExB]);
            |R| == 4 && CounterPath(R[0]) == [1] && CounterPath(R[1]) == [1, 1]
            && CounterPath(R[2]) == [1, 2] && CounterPath(R[3]) == [2]
  {
    ExampleResolve(ExA, ExX, ExY, ExB);
    CounterPathOne(ItA);
    CounterPathTwo(ItX);
    CounterPathTwo(ItY);
    CounterPathOne(ItB);
  }

  /** A leading `title` gets a one-segment path although its level is 1, and an entry of
      an unknown type is dropped. */
  lemma LeadingTitleStep(t: TocEntry)
    requires t == TocEntry("b", "X", "title", 3)
    ensures Step(Initial, t) == (State([0, 1, 0, 0, 0], [PathSegment("title", "X", 3, 1, 1)]),
                                 Some(Item(t, [PathSegment("title", "X", 3, 1, 1)], 1)))
  {
    assert LevelOf(t.kind) == Some(1);
    var res := Step(Initial, t);
    assert res.0.counters == [0, 1, 0, 0, 0];
    assert res.0.path == [PathSegment("title", "X", 3, 1, 1)];
  }

  lemma LeadingTitleExample()
    ensures var t := TocEntry("b", "X", "title", 3);
            var u := TocEntry("b", "U", "note", 4);
            Resolve([u, t]) == [Item(t, [PathSegment("title", "X", 3, 1, 1)], 1)]
  {
    var t := TocEntry("b", "X", "title", 3);
    var u := TocEntry("b", "U", "note", 4);
    assert StateAfter([]) == Initial && Resolve([]) == [];
    ResolveSnoc([], u);
    assert LevelOf(u.kind) == None;
    Snoc0(u);
    assert StateAfter([u]) == Initial && Resolve([u]) == [];
    LeadingTitleStep(t);
    ResolveFrom([u], t, Initial, [], State([0, 1, 0, 0, 0], [PathSegment("title", "X", 3, 1, 1)]),
                Item(t, [PathSegment("title", "X", 3, 1, 1)], 1));
    Snoc1(u, t);
    Snoc0(Item(t, [PathSegment("title", "X", 3, 1, 1)], 1));
  }
}
