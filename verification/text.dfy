/**
 The parts of Python's `str` behaviour that the builders rely on: `split(sep)`,
 `sep.join(parts)`, `replace(old, new)`, `strip()`, `isspace()`, `str(int)` and
 `int(str)`. Strings are sequences of Unicode code points.
 */
module TextUtil {

  datatype Option<T> = None | Some(value: T)

  /** A computation that either yields a value or raises with a message. */
  datatype Result<T> = Ok(value: T) | Err(msg: string)

  // ---------------------------------------------------------------------------
  // Occurrences, replace, split, join
  // ---------------------------------------------------------------------------

  /** `pat` starts at position `k` of `s`. */
  predicate OccursAt(pat: string, s: string, k: nat)
    requires k <= |s|
  {
    pat <= s[k..]
  }

  /** `pat` occurs nowhere in `s`. */
  predicate Absent(pat: string, s: string)
  {
    forall k :: 0 <= k <= |s| ==> !OccursAt(pat, s, k)
  }

  /** `s.replace(pat, rep)` for a non-empty `pat`: the occurrences are found left to
      right and do not overlap; the replacement text is never scanned again. */
  function ReplaceAll(s: string, pat: string, rep: string): string
    requires pat != []
    decreases |s|
  {
    if s == [] then []
    else if pat <= s then rep + ReplaceAll(s[|pat|..], pat, rep)
    else [s[0]] + ReplaceAll(s[1..], pat, rep)
  }

  /** `s.split(sep)` for a non-empty `sep`. */
  function Split(s: string, sep: string): (parts: seq<string>)
    requires sep != []
    ensures |parts| >= 1
    decreases |s|
  {
    if s == [] then [[]]
    else if sep <= s then [[]] + Split(s[|sep|..], sep)
    else
      var rest := Split(s[1..], sep);
      [[s[0]] + rest[0]] + rest[1..]
  }

  /** `sep.join(parts)`. */
  function Join(parts: seq<string>, sep: string): string
    decreases |parts|
  {
    if parts == [] then []
    else if |parts| == 1 then parts[0]
    else parts[0] + sep + Join(parts[1..], sep)
  }

  lemma JoinCons(p: string, rest: seq<string>, sep: string)
    requires rest != []
    ensures Join([p] + rest, sep) == p + sep + Join(rest, sep)
  {
    assert ([p] + rest)[1..] == rest;
  }

  /** Joining two non-empty lists is joining their joins. */
  lemma {:induction false} JoinAppend(a: seq<string>, b: seq<string>, sep: string)
    requires a != [] && b != []
    ensures Join(a + b, sep) == Join(a, sep) + sep + Join(b, sep)
    decreases |a|
  {
    if |a| == 1 {
      assert a + b == [a[0]] + b;
      JoinCons(a[0], b, sep);
    } else {
      assert a + b == [a[0]] + (a[1..] + b);
      assert [a[0]] + a[1..] == a;
      JoinCons(a[0], a[1..] + b, sep);
      JoinAppend(a[1..], b, sep);
      JoinCons(a[0], a[1..], sep);
      var x, y := Join(a[1..], sep), Join(b, sep);
      calc {
        Join(a + b, sep);
        a[0] + sep + Join(a[1..] + b, sep);
        a[0] + sep + (x + sep + y);
        (a[0] + sep + x) + sep + y;
        Join(a, sep) + sep + y;
      }
    }
  }

  /** Moving one leading character into the first piece of a split. */
  lemma JoinHeadChar(c: char, rest: seq<string>, sep: string)
    requires rest != []
    ensures Join([[c] + rest[0]] + rest[1..], sep) == [c] + Join(rest, sep)
  {
    if |rest| == 1 {
    } else {
      JoinCons([c] + rest[0], rest[1..], sep);
      JoinCons(rest[0], rest[1..], sep);
      assert [rest[0]] + rest[1..] == rest;
    }
  }

  /** A string that starts with `p` is `p` followed by the rest. */
  lemma PrefixThenRest(s: string, p: string)
    requires p <= s
    ensures s == p + s[|p|..]
  {
    assert s[..|p|] == p;
  }

  lemma JoinSplitAtSep(s: string, sep: string)
    requires sep != [] && s != [] && sep <= s
    requires Join(Split(s[|sep|..], sep), sep) == s[|sep|..]
    ensures Join(Split(s, sep), sep) == s
  {
    var tail := s[|sep|..];
    PrefixThenRest(s, sep);
    var parts := Split(tail, sep);
    assert Split(s, sep) == [[]] + parts;
    JoinCons([], parts, sep);
    EmptyThen(sep + tail);
    assert Join(Split(s, sep), sep) == [] + sep + tail;
  }

  lemma EmptyThen(t: string)
    ensures [] + t == t
  {
  }

  lemma JoinSplitAtChar(s: string, sep: string)
    requires sep != [] && s != [] && !(sep <= s)
    requires Join(Split(s[1..], sep), sep) == s[1..]
    ensures Join(Split(s, sep), sep) == s
  {
    var rest := Split(s[1..], sep);
    JoinHeadChar(s[0], rest, sep);
    assert Split(s, sep) == [[s[0]] + rest[0]] + rest[1..];
    assert [s[0]] + s[1..] == s;
  }

  /** Split and join are inverse: joining the pieces with the separator gives back `s`. */
  lemma {:induction false} JoinSplit(s: string, sep: string)
    requires sep != []
    ensures Join(Split(s, sep), sep) == s
    decreases |s|
  {
    if s == [] {
    } else if sep <= s {
      JoinSplit(s[|sep|..], sep);
      JoinSplitAtSep(s, sep);
    } else {
      JoinSplit(s[1..], sep);
      JoinSplitAtChar(s, sep);
    }
  }

  /** `s.replace(pat, rep)` is `rep.join(s.split(pat))`. */
  lemma {:induction false} ReplaceIsSplitJoin(s: string, pat: string, rep: string)
    requires pat != []
    ensures ReplaceAll(s, pat, rep) == Join(Split(s, pat), rep)
    decreases |s|
  {
    if s == [] {
    } else if pat <= s {
      var tail := s[|pat|..];
      ReplaceIsSplitJoin(tail, pat, rep);
      assert ReplaceAll(s, pat, rep) == rep + ReplaceAll(tail, pat, rep);
      assert Split(s, pat) == [[]] + Split(tail, pat);
      JoinCons([], Split(tail, pat), rep);
      EmptyThen(rep + Join(Split(tail, pat), rep));
    } else {
      var rest := Split(s[1..], pat);
      ReplaceIsSplitJoin(s[1..], pat, rep);
      assert ReplaceAll(s, pat, rep) == [s[0]] + ReplaceAll(s[1..], pat, rep);
      assert Split(s, pat) == [[s[0]] + rest[0]] + rest[1..];
      JoinHeadChar(s[0], rest, rep);
    }
  }

  /** Replacing a pattern by itself changes nothing. */
  lemma ReplaceBySelf(s: string, pat: string)
    requires pat != []
    ensures ReplaceAll(s, pat, pat) == s
  {
    ReplaceIsSplitJoin(s, pat, pat);
    JoinSplit(s, pat);
  }

  lemma AbsentTail(pat: string, s: string)
    requires s != [] && Absent(pat, s)
    ensures Absent(pat, s[1..])
  {
    forall k | 0 <= k <= |s[1..]|
      ensures !OccursAt(pat, s[1..], k)
    {
      assert s[1..][k..] == s[k + 1..];
      assert !OccursAt(pat, s, k + 1);
    }
  }

  /** A text in which the pattern does not occur is left as it is. */
  lemma {:induction false} ReplaceAbsent(s: string, pat: string, rep: string)
    requires pat != [] && Absent(pat, s)
    ensures ReplaceAll(s, pat, rep) == s
    decreases |s|
  {
    if s != [] {
      assert !OccursAt(pat, s, 0);
      AbsentTail(pat, s);
      ReplaceAbsent(s[1..], pat, rep);
    }
  }

  /** A string in which `sep` does not occur splits into itself alone. */
  lemma {:induction false} SplitAbsent(s: string, sep: string)
    requires sep != [] && Absent(sep, s)
    ensures Split(s, sep) == [s]
    decreases |s|
  {
    if s != [] {
      assert !OccursAt(sep, s, 0);
      AbsentTail(sep, s);
      SplitAbsent(s[1..], sep);
      assert Split(s, sep) == [[s[0]] + s[1..]];
      assert [s[0]] + s[1..] == s;
    }
  }

  /** No occurrence of `sep` starts inside `p` when `sep` follows `p`. */
  predicate CleanBefore(p: string, sep: string)
  {
    forall k :: 0 <= k < |p| ==> !OccursAt(sep, p + sep, k)
  }

  lemma {:induction false} SplitPieceThenSep(p: string, sep: string, rest: string)
    requires sep != [] && CleanBefore(p, sep)
    ensures Split(p + sep + rest, sep) == [p] + Split(rest, sep)
    decreases |p|
  {
    var s := p + sep + rest;
    if p == [] {
      assert s == sep + rest;
      assert s[|sep|..] == rest;
    } else {
      assert (p + sep)[0..] == p + sep;
      assert !OccursAt(sep, p + sep, 0);
      assert s == (p + sep) + rest;
      assert s[..|sep|] == (p + sep)[..|sep|];
      assert !(sep <= s);
      assert CleanBefore(p[1..], sep) by {
        forall k | 0 <= k < |p[1..]|
          ensures !OccursAt(sep, p[1..] + sep, k)
        {
          assert (p[1..] + sep)[k..] == (p + sep)[k + 1..];
          assert !OccursAt(sep, p + sep, k + 1);
        }
      }
      assert s[1..] == p[1..] + sep + rest;
      SplitPieceThenSep(p[1..], sep, rest);
      assert [p[0]] + p[1..] == p;
    }
  }

  /** Splitting a join gives the pieces back when no piece hides the separator. */
  lemma {:induction false} SplitJoin(parts: seq<string>, sep: string)
    requires sep != [] && parts != []
    requires forall i :: 0 <= i < |parts| - 1 ==> CleanBefore(parts[i], sep)
    requires Absent(sep, parts[|parts| - 1])
    ensures Split(Join(parts, sep), sep) == parts
    decreases |parts|
  {
    if |parts| == 1 {
      SplitAbsent(parts[0], sep);
    } else {
      JoinCons(parts[0], parts[1..], sep);
      assert [parts[0]] + parts[1..] == parts;
      SplitPieceThenSep(parts[0], sep, Join(parts[1..], sep));
      SplitJoin(parts[1..], sep);
    }
  }

  /** A one-character separator is clean before any piece that does not contain it. */
  lemma CleanBeforeChar(p: string, c: char)
    requires c !in p
    ensures CleanBefore(p, [c])
  {
    forall k | 0 <= k < |p|
      ensures !OccursAt([c], p + [c], k)
    {
      assert (p + [c])[k] == p[k];
    }
  }

  lemma AbsentChar(p: string, c: char)
    requires c !in p
    ensures Absent([c], p)
  {
    forall k | 0 <= k <= |p|
      ensures !OccursAt([c], p, k)
    {
      if k < |p| {
        assert p[k..][0] == p[k];
      }
    }
  }

  /** A separator whose second character differs from its first is clean before any
      piece without that second character. */
  lemma CleanBeforeSecond(p: string, sep: string)
    requires |sep| >= 2 && sep[0] != sep[1] && sep[1] !in p
    ensures CleanBefore(p, sep)
  {
    forall k | 0 <= k < |p|
      ensures !OccursAt(sep, p + sep, k)
    {
      var s := p + sep;
      if k + 1 < |p| {
        assert s[k + 1] == p[k + 1];
      } else {
        assert s[k + 1] == sep[0];
      }
      assert s[k..][1] == s[k + 1];
    }
  }

  /** Nor does such a separator occur in a piece without its second character. */
  lemma AbsentSecond(p: string, sep: string)
    requires |sep| >= 2 && sep[1] !in p
    ensures Absent(sep, p)
  {
    forall k | 0 <= k <= |p|
      ensures !OccursAt(sep, p, k)
    {
      if k + 1 < |p| {
        assert p[k..][1] == p[k + 1];
      }
    }
  }

  // ---------------------------------------------------------------------------
  // Whitespace and strip()
  // ---------------------------------------------------------------------------

  /** Python's `str.isspace()` on one code point. */
  predicate IsSpace(c: char)
  {
    || ('\U{0009}' <= c <= '\U{000D}')
    || ('\U{001C}' <= c <= '\U{0020}')
    || c == '\U{0085}' || c == '\U{00A0}' || c == '\U{1680}'
    || ('\U{2000}' <= c <= '\U{200A}')
    || c == '\U{2028}' || c == '\U{2029}' || c == '\U{202F}' || c == '\U{205F}'
    || c == '\U{3000}'
  }

  predicate AllSpace(s: string)
  {
    forall k :: 0 <= k < |s| ==> IsSpace(s[k])
  }

  /** `s.lstrip()`: the suffix left after dropping leading whitespace. */
  function TrimStart(s: string): (r: string)
    ensures |r| <= |s| && r == s[|s| - |r|..]
    ensures AllSpace(s[..|s| - |r|])
    ensures r == [] || !IsSpace(r[0])
    decreases |s|
  {
    if s != [] && IsSpace(s[0]) then TrimStart(s[1..]) else s
  }

  /** `s.rstrip()`: the prefix left after dropping trailing whitespace. */
  function TrimEnd(s: string): (r: string)
    ensures |r| <= |s| && r == s[..|r|]
    ensures AllSpace(s[|r|..])
    ensures r == [] || !IsSpace(r[|r| - 1])
    ensures s != [] && !IsSpace(s[0]) ==> r != []
    decreases |s|
  {
    if s != [] && IsSpace(s[|s| - 1]) then
      var r := TrimEnd(s[..|s| - 1]);
      assert s[|r|..] == s[..|s| - 1][|r|..] + [s[|s| - 1]];
      r
    else s
  }

  /** `s.strip()`: the middle run of `s` left after dropping whitespace at both ends;
      it neither starts nor ends with whitespace. */
  function Strip(s: string): (r: string)
    ensures MiddleOf(s, |s| - |TrimStart(s)|, r)
    ensures r == [] || (!IsSpace(r[0]) && !IsSpace(r[|r| - 1]))
  {
    var t := TrimStart(s);
    var r := TrimEnd(t);
    MiddleRun(s, t, r);
    assert r != [] ==> r[0] == t[0];
    r
  }

  /** `r` is the run of `s` from position `a`, with only whitespace before and after it. */
  predicate MiddleOf(s: string, a: nat, r: string)
  {
    && a + |r| <= |s| && r == s[a..a + |r|]
    && AllSpace(s[..a]) && AllSpace(s[a + |r|..])
  }

  /** A prefix `r` of a suffix `t` of `s` is the run of `s` between them. */
  lemma MiddleRun(s: string, t: string, r: string)
    requires |t| <= |s| && t == s[|s| - |t|..] && |r| <= |t| && r == t[..|r|]
    requires AllSpace(s[..|s| - |t|]) && AllSpace(t[|r|..])
    ensures MiddleOf(s, |s| - |t|, r)
  {
    var a := |s| - |t|;
    assert s[a + |r|..] == t[|r|..];
  }

  /** `not s.strip()`: the string is empty or whitespace only. */
  predicate IsBlank(s: string)
  {
    Strip(s) == []
  }

  /** A string is blank exactly when every character is whitespace. */
  lemma BlankIffAllSpace(s: string)
    ensures IsBlank(s) <==> AllSpace(s)
  {
    var t := TrimStart(s);
    if t == [] {
      assert s[..|s|] == s;
    } else {
      assert s[|s| - |t|] == t[0];
    }
  }

  /** Stripping a string that neither starts nor ends with whitespace changes nothing. */
  lemma StripUnpadded(s: string)
    requires s != [] && !IsSpace(s[0]) && !IsSpace(s[|s| - 1])
    ensures Strip(s) == s
  {
  }

  // ---------------------------------------------------------------------------
  // str(int) and int(str)
  // ---------------------------------------------------------------------------

  predicate IsDigit(c: char)
  {
    '0' <= c <= '9'
  }

  function DigitChar(d: nat): (c: char)
    requires d < 10
    ensures IsDigit(c) && c as int - '0' as int == d
  {
    ('0' as int + d) as char
  }

  /** `str(n)` for a natural number: decimal digits, no leading zero. */
  function NatToString(n: nat): (s: string)
    ensures s != [] && forall k :: 0 <= k < |s| ==> IsDigit(s[k])
    decreases n
  {
    if n < 10 then [DigitChar(n)] else NatToString(n / 10) + [DigitChar(n % 10)]
  }

  /** `str(i)`: a minus sign for a negative number, then the decimal digits. */
  function IntToString(i: int): (s: string)
    ensures s != [] && (s[0] == '-' <==> i < 0)
    ensures forall k :: 0 <= k < |s| ==> IsDigit(s[k]) || (k == 0 && s[k] == '-')
  {
    if i < 0 then "-" + NatToString(-i) else NatToString(i)
  }

  function DigitValue(c: char): (d: nat)
    requires IsDigit(c)
    ensures d < 10 && DigitChar(d) == c
  {
    c as int - '0' as int
  }

  /** The value of a string of decimal digits. */
  function DigitsValue(s: string): nat
    requires forall k :: 0 <= k < |s| ==> IsDigit(s[k])
    decreases |s|
  {
    if s == [] then 0 else 10 * DigitsValue(s[..|s| - 1]) + DigitValue(s[|s| - 1])
  }

  function ParseDigits(s: string): (r: Option<nat>)
    ensures r.Some? <==> s != [] && forall k :: 0 <= k < |s| ==> IsDigit(s[k])
  {
    if s != [] && forall k :: 0 <= k < |s| ==> IsDigit(s[k]) then Some(DigitsValue(s)) else None
  }

  /** A digit string read with its sign. */
  function Signed(negative: bool, digits: Option<nat>): Option<int>
  {
    match digits
    case None => None
    case Some(n) => Some(if negative then -(n as int) else n as int)
  }

  /** `int()` on a string that is already stripped. */
  function ParseStripped(t: string): Option<int>
  {
    if t != [] && (t[0] == '-' || t[0] == '+') then Signed(t[0] == '-', ParseDigits(t[1..]))
    else Signed(false, ParseDigits(t))
  }

  /** `int(s)`: surrounding whitespace, an optional sign and ASCII decimal digits;
      `None` where Python raises `ValueError`. */
  function ParseInt(s: string): Option<int>
  {
    ParseStripped(Strip(s))
  }

  lemma {:induction false} DigitsValueOfNat(n: nat)
    ensures DigitsValue(NatToString(n)) == n
    decreases n
  {
    var s := NatToString(n);
    if n >= 10 {
      DigitsValueOfNat(n / 10);
      assert s[..|s| - 1] == NatToString(n / 10);
    }
  }

  /** A decimal string reads back as its value. */
  lemma ParseNatString(n: nat)
    ensures Strip(NatToString(n)) == NatToString(n)
    ensures ParseDigits(NatToString(n)) == Some(n)
  {
    var d := NatToString(n);
    DigitsValueOfNat(n);
    assert !IsSpace(d[0]) && !IsSpace(d[|d| - 1]);
    StripUnpadded(d);
  }

  /** `int(str(i)) == i`. */
  lemma ParseIntOfString(i: int)
    ensures ParseInt(IntToString(i)) == Some(i)
  {
    var n: nat := if i < 0 then -i else i;
    var d := NatToString(n);
    ParseNatString(n);
    if i < 0 {
      var s := "-" + d;
      assert IntToString(i) == s;
      assert !IsSpace(s[0]) && s[|s| - 1] == d[|d| - 1];
      StripUnpadded(s);
      assert s[1..] == d;
      assert ParseStripped(s) == Signed(true, ParseDigits(d));
    } else {
      assert IntToString(i) == d;
      assert ParseStripped(d) == Signed(false, ParseDigits(d));
    }
  }

  /** Decimal strings never contain the given non-digit character. */
  lemma NoNonDigitInNat(n: nat, c: char)
    requires !IsDigit(c)
    ensures c !in NatToString(n)
  {
  }
}
