/**
 The substitution `re.sub(r'(?<=>)[^<]+(?=<)|(?<=>)[^<]+$|^[^<]+(?=<)', f, s)` that
 `convert_html_content` uses to rewrite the text between tags, generic in the
 replacement function `f`.

 `SubFrom` follows the regular-expression engine: it tries the pattern at each scan
 position from left to right, replaces a match and resumes after it, and otherwise
 copies one character and moves on. `Blockwise` is an independent description of
 the same result in terms of the `<`-separated blocks of the input; the lemma
 `RegexSubIsBlockwise` proves the two agree.
 */
module Markup {
  import opened TextUtil

  /** The first `<` at or after `i`, or `|s|` when there is none. `[^<]+` is greedy,
      so a run that starts at `i` always extends to this position. */
  function RunEnd(s: string, i: nat): (j: nat)
    requires i <= |s|
    ensures i <= j <= |s|
    ensures forall k :: i <= k < j ==> s[k] != '<'
    ensures j < |s| ==> s[j] == '<'
    decreases |s| - i
  {
    if i == |s| || s[i] == '<' then i else RunEnd(s, i + 1)
  }

  /** The end of the match of the pattern at scan position `i`, if any.
      Alternatives one and two need a `>` just before `i` and take the run up to the
      next `<` or up to the end of the string; alternative three needs `i == 0` and a
      `<` after the run. A run is never empty. */
  function MatchAt(s: string, i: nat): (m: Option<nat>)
    requires i <= |s|
    ensures m.Some? ==> i < m.value <= |s|
    ensures m.Some? ==> forall k :: i <= k < m.value ==> s[k] != '<'
    ensures m.Some? ==> m.value == |s| || s[m.value] == '<'
    ensures m.Some? <==> i < |s| && s[i] != '<' && ((i > 0 && s[i - 1] == '>') || (i == 0 && '<' in s))
  {
    var j := RunEnd(s, i);
    if j == i then None
    else if i > 0 && s[i - 1] == '>' then Some(j)
    else if i == 0 && j < |s| then Some(j)
    else
      assert i == 0 ==> forall k :: 0 <= k < |s| ==> s[k] != '<';
      None
  }

  /** The output of the substitution for the input from scan position `i` on. */
  function SubFrom(s: string, i: nat, f: string -> string): string
    requires i <= |s|
    decreases |s| - i
  {
    if i == |s| then []
    else
      match MatchAt(s, i)
      case Some(j) => f(s[i..j]) + SubFrom(s, j, f)
      case None => [s[i]] + SubFrom(s, i + 1, f)
  }

  /** `re.sub(pattern, f, s)`. */
  function RegexSub(s: string, f: string -> string): string
  {
    SubFrom(s, 0, f)
  }

  // ---------------------------------------------------------------------------
  // Reference description by blocks
  // ---------------------------------------------------------------------------

  /** A selected run is handed to `f`; an empty one selects nothing. */
  function Rewrite(t: string, f: string -> string): string
  {
    if t == [] then [] else f(t)
  }

  /** A block without `<`: everything up to and including its first `>` is kept,
      the rest of the block is rewritten. A block with no `>` is kept whole. */
  function AfterFirstGt(b: string, f: string -> string): string
    decreases |b|
  {
    if b == [] then []
    else if b[0] == '>' then ">" + Rewrite(b[1..], f)
    else [b[0]] + AfterFirstGt(b[1..], f)
  }

  /** How a block that ends at a `<` comes out: rewritten whole when it leads the
      input, rewritten after its first `>` otherwise. */
  function BlockHead(b: string, f: string -> string, leading: bool): string
  {
    if leading then Rewrite(b, f) else AfterFirstGt(b, f)
  }

  /** The input from block start `a` on, cut at each `<`. Every `<` is kept; a block
      that ends at a `<` comes out as `BlockHead` says; the last block, which runs to
      the end of the input, is rewritten only after its first `>`. */
  function Blocks(s: string, a: nat, f: string -> string, leading: bool): string
    requires a <= |s|
    decreases |s| - a
  {
    var j := RunEnd(s, a);
    if j == |s| then AfterFirstGt(s[a..j], f)
    else BlockHead(s[a..j], f, leading) + "<" + Blocks(s, j + 1, f, false)
  }

  /** The block-wise description of the whole input, its first block leading. */
  function Blockwise(s: string, f: string -> string): string
  {
    Blocks(s, 0, f, true)
  }

  /** `RunEnd` is the first `<` from `i` on: any position with that property is it. */
  lemma {:induction false} RunEndIs(s: string, i: nat, p: nat)
    requires i <= p <= |s|
    requires forall k :: i <= k < p ==> s[k] != '<'
    requires p < |s| ==> s[p] == '<'
    ensures RunEnd(s, i) == p
    decreases p - i
  {
    if i < p {
      RunEndIs(s, i + 1, p);
    }
  }

  lemma RunEndShift(s: string, a: nat)
    requires a <= |s|
    ensures RunEnd(s, a) == a + RunEnd(s[a..], 0)
  {
    var j' := RunEnd(s[a..], 0);
    forall k | a <= k < a + j'
      ensures s[k] != '<'
    {
      assert s[a..][k - a] == s[k];
    }
    if a + j' < |s| {
      assert s[a..][j'] == s[a + j'];
    }
    RunEndIs(s, a, a + j');
  }

  /** Where nothing matches, the scanner copies one character. */
  lemma SubFromCopy(s: string, k: nat, f: string -> string)
    requires k < |s| && MatchAt(s, k).None?
    ensures SubFrom(s, k, f) == [s[k]] + SubFrom(s, k + 1, f)
  {
  }

  /** Where a run matches, the scanner hands it to `f` and resumes after it. */
  lemma SubFromMatch(s: string, k: nat, j: nat, f: string -> string)
    requires k < |s| && MatchAt(s, k) == Some(j)
    ensures SubFrom(s, k, f) == f(s[k..j]) + SubFrom(s, j, f)
  {
  }

  /** Scanning a `<`-free stretch that no pattern alternative can start: it is copied
      up to its first `>`, after which the rest is one match. */
  lemma {:induction false} ScanStretch(s: string, k: nat, b: nat, f: string -> string)
    requires k <= b <= |s| && b == RunEnd(s, k)
    requires k == 0 ==> b == |s|
    requires k > 0 ==> s[k - 1] != '>'
    ensures SubFrom(s, k, f) == AfterFirstGt(s[k..b], f) + SubFrom(s, b, f)
    decreases b - k
  {
    if k < b {
      assert k == 0 ==> '<' !in s;
      SubFromCopy(s, k, f);
      var rest := s[k..b][1..];
      assert rest == s[k + 1..b];
      if s[k] == '>' {
        assert AfterFirstGt(s[k..b], f) == ">" + Rewrite(rest, f);
        if k + 1 < b {
          assert RunEnd(s, k + 1) == b;
          SubFromMatch(s, k + 1, b, f);
        }
      } else {
        assert AfterFirstGt(s[k..b], f) == [s[k]] + AfterFirstGt(rest, f);
        assert RunEnd(s, k + 1) == b;
        ScanStretch(s, k + 1, b, f);
      }
    }
  }

  /** One block that ends at a `<`, scanned from its start. */
  lemma ScanBlockThenLt(s: string, a: nat, f: string -> string, leading: bool)
    requires a <= |s| && RunEnd(s, a) < |s|
    requires leading <==> a == 0
    requires a > 0 ==> s[a - 1] == '<'
    ensures SubFrom(s, a, f) == BlockHead(s[a..RunEnd(s, a)], f, leading) + "<" + SubFrom(s, RunEnd(s, a) + 1, f)
  {
    var b := RunEnd(s, a);
    if a == 0 && b > 0 {
      assert MatchAt(s, 0) == Some(b);
    } else if a == 0 {
      assert s[a..b] == [];
    } else {
      ScanStretch(s, a, b, f);
    }
    assert MatchAt(s, b).None?;
    assert SubFrom(s, b, f) == "<" + SubFrom(s, b + 1, f);
  }

  /** The last block, scanned from its start, is the last step of the block-wise
      description. */
  lemma ScanLastBlock(s: string, a: nat, f: string -> string, leading: bool)
    requires a <= |s| && RunEnd(s, a) == |s|
    requires a > 0 ==> s[a - 1] == '<'
    ensures SubFrom(s, a, f) == Blocks(s, a, f, leading)
  {
    ScanStretch(s, a, |s|, f);
    assert SubFrom(s, |s|, f) == [];
  }

  /** From just after a `<`, the scanner produces the block-wise description of the
      rest of the input. */
  lemma {:induction false} ScanFromBlock(s: string, a: nat, f: string -> string)
    requires 0 < a <= |s| && s[a - 1] == '<'
    ensures SubFrom(s, a, f) == Blocks(s, a, f, false)
    decreases |s| - a
  {
    var b := RunEnd(s, a);
    if b == |s| {
      ScanLastBlock(s, a, f, false);
    } else {
      ScanFromBlock(s, b + 1, f);
      ScanBlockThenLt(s, a, f, false);
    }
  }

  /** The regular-expression substitution agrees with the block-wise description. */
  lemma RegexSubIsBlockwise(s: string, f: string -> string)
    ensures RegexSub(s, f) == Blockwise(s, f)
  {
    var b := RunEnd(s, 0);
    if b == |s| {
      ScanLastBlock(s, 0, f, true);
    } else {
      ScanFromBlock(s, b + 1, f);
      ScanBlockThenLt(s, 0, f, true);
    }
  }

  // ---------------------------------------------------------------------------
  // Consequences
  // ---------------------------------------------------------------------------

  lemma {:induction false} AfterFirstGtNoGt(b: string, f: string -> string)
    requires '>' !in b
    ensures AfterFirstGt(b, f) == b
    decreases |b|
  {
    if b != [] {
      AfterFirstGtNoGt(b[1..], f);
    }
  }

  /** Text with neither `<` nor `>` matches no alternative, so it comes out unchanged. */
  lemma NoBracketsUnchanged(s: string, f: string -> string)
    ensures '<' !in s && '>' !in s ==> RegexSub(s, f) == s
  {
    if '<' !in s && '>' !in s {
      RegexSubIsBlockwise(s, f);
      RunEndIs(s, 0, |s|);
      assert s[0..|s|] == s;
      AfterFirstGtNoGt(s, f);
    }
  }

  lemma {:induction false} AfterFirstGtSkip(pre: string, rest: string, f: string -> string)
    requires '>' !in pre
    ensures AfterFirstGt(pre + ">" + rest, f) == pre + ">" + Rewrite(rest, f)
    decreases |pre|
  {
    if pre == [] {
      assert (">" + rest)[1..] == rest;
    } else {
      assert (pre + ">" + rest)[1..] == pre[1..] + ">" + rest;
      AfterFirstGtSkip(pre[1..], rest, f);
    }
  }

  /** A block from `a` that ends at the `<` at `p` comes out as its head, the `<`, and
      the description of what follows. */
  lemma BlockEndsAt(s: string, a: nat, p: nat, f: string -> string, leading: bool)
    requires a <= p < |s| && s[p] == '<' && '<' !in s[a..p]
    ensures Blocks(s, a, f, leading) == BlockHead(s[a..p], f, leading) + "<" + Blocks(s, p + 1, f, false)
  {
    forall k | a <= k < p
      ensures s[k] != '<'
    {
      assert s[k] == s[a..p][k - a];
    }
    RunEndIs(s, a, p);
  }

  /** A last block, free of `<`, is kept up to its first `>` and rewritten after it. */
  lemma LastBlockAt(s: string, a: nat, f: string -> string, leading: bool)
    requires a <= |s| && '<' !in s[a..]
    ensures Blocks(s, a, f, leading) == AfterFirstGt(s[a..], f)
  {
    forall k | a <= k < |s|
      ensures s[k] != '<'
    {
      assert s[k] == s[a..][k - a];
    }
    RunEndIs(s, a, |s|);
    assert s[a..|s|] == s[a..];
  }

  /** An element `<n>TEXT</n>`: the two tags come out verbatim and the text between
      them is handed to `f` whole. */
  lemma ElementText(name: string, text: string, f: string -> string)
    requires '<' !in name && '>' !in name
    requires '<' !in text && text != []
    ensures RegexSub("<" + name + ">" + text + "</" + name + ">", f)
         == "<" + name + ">" + f(text) + "</" + name + ">"
  {
    var s := "<" + (name + ">" + text) + "<" + ("/" + name + ">");
    ElementLayout(name, text);
    RegexSubIsBlockwise(s, f);
    ElementBlocks(name, text, f);
    ElementConcat(name, f(text));
  }

  /** The blocks of an element: an empty leading block, the opening tag's name with
      the rewritten text, and the closing tag. */
  lemma ElementBlocks(name: string, text: string, f: string -> string)
    requires '<' !in name && '>' !in name
    requires '<' !in text && text != []
    ensures Blockwise("<" + (name + ">" + text) + "<" + ("/" + name + ">"), f)
         == [] + "<" + (name + ">" + f(text) + "<" + ("/" + name + ">"))
  {
    var open := name + ">" + text;
    var close := "/" + name + ">";
    var s := "<" + open + "<" + close;
    ElementLayout(name, text);
    var p := 1 + |open|;
    AfterFirstGtSkip(name, text, f);
    assert close == ("/" + name) + ">" + [];
    AfterFirstGtSkip("/" + name, [], f);
    LastBlockAt(s, p + 1, f, false);
    assert Blocks(s, p + 1, f, false) == close;
    BlockEndsAt(s, 1, p, f, false);
    assert Blocks(s, 1, f, false) == name + ">" + f(text) + "<" + close;
    BlockEndsAt(s, 0, 0, f, true);
    assert BlockHead(s[0..0], f, true) == [];
  }

  /** Where the two `<` of an element sit. */
  lemma ElementLayout(name: string, text: string)
    requires '<' !in name && '<' !in text
    ensures var open := name + ">" + text;
            var s := "<" + open + "<" + ("/" + name + ">");
            && s == "<" + name + ">" + text + "</" + name + ">"
            && s[0..0] == [] && s[0] == '<'
            && s[1..1 + |open|] == open && s[1 + |open|] == '<'
            && s[1 + |open| + 1..] == "/" + name + ">"
            && '<' !in open && '<' !in "/" + name + ">"
  {
  }

  lemma ElementConcat(name: string, t: string)
    ensures [] + "<" + (name + ">" + t + "<" + ("/" + name + ">")) == "<" + name + ">" + t + "</" + name + ">"
  {
  }

  /** With a replacement that returns its argument, the substitution is the identity. */
  lemma {:induction false} IdentityReplacement(s: string, i: nat, f: string -> string)
    requires i <= |s|
    requires forall t :: f(t) == t
    ensures SubFrom(s, i, f) == s[i..]
    decreases |s| - i
  {
    if i < |s| {
      var m := MatchAt(s, i);
      if m.Some? {
        var j := m.value;
        IdentityReplacement(s, j, f);
        assert f(s[i..j]) == s[i..j];
        KeptRun(s, i, j, f);
      } else {
        IdentityReplacement(s, i + 1, f);
        KeptChar(s, i, f);
      }
    }
  }

  /** A matched run that the replacement returns unchanged, followed by an unchanged
      rest, leaves the whole rest unchanged. */
  lemma KeptRun(s: string, i: nat, j: nat, f: string -> string)
    requires i < |s| && MatchAt(s, i) == Some(j)
    requires f(s[i..j]) == s[i..j] && SubFrom(s, j, f) == s[j..]
    ensures SubFrom(s, i, f) == s[i..]
  {
    SubFromMatch(s, i, j, f);
    assert s[i..] == s[i..j] + s[j..];
  }

  /** A copied character followed by an unchanged rest leaves the whole rest unchanged. */
  lemma KeptChar(s: string, i: nat, f: string -> string)
    requires i < |s| && MatchAt(s, i).None? && SubFrom(s, i + 1, f) == s[i + 1..]
    ensures SubFrom(s, i, f) == s[i..]
  {
    SubFromCopy(s, i, f);
    assert s[i..] == [s[i]] + s[i + 1..];
  }
}
