/**
 Script conversion: the per-script transliteration profiles, the post-conversion
 correction rules, the failure-tolerant wrapper around the transliteration engine,
 and the conversion of HTML page content that rewrites only the text between tags.

 The engine itself is a parameter: a function from (source script, target script,
 text) to the converted text, or `None` where the engine raises.
 */
module Conversion {
  import opened TextUtil
  import Markup

  /** One literal replace-all rule applied after transliteration. A rule whose
      `from` is empty is skipped. */
  datatype Correction = Correction(from: string, to: string)

  /** The transliteration settings for one target script code. */
  datatype ScriptProfile = ScriptProfile(code: string, source: string, target: string, corrections: seq<Correction>)

  /** (source script, target script, text) to the converted text; `None` where the
      engine raises. */
  type Transliterator = (string, string, string) -> Option<string>

  /** The script the corpus is stored in; it is never converted. */
  const NativeScript: string := "mymr"

  /** Every script code an output tree is built for, the native one first. */
  const ScriptCodes: seq<string> := ["mymr", "thai", "sinh", "romn", "deva", "khmr", "laoo", "lana"]

  const Profiles: seq<ScriptProfile> := [
    ScriptProfile("romn", "Burmese", "IASTPali", [Correction("..", ".")]),
    ScriptProfile("thai", "Burmese", "Thai", [Correction("ึ", "ิํ"), Correction("๚", ".")]),
    ScriptProfile("deva", "Burmese", "Devanagari", [Correction("..", ".")]),
    ScriptProfile("khmr", "Burmese", "Khmer", [Correction("៕", ".")]),
    ScriptProfile("lana", "Burmese", "TaiTham", [Correction("᪩", ".")]),
    ScriptProfile("laoo", "Burmese", "LaoPali", [Correction("ຯຯ", ".")]),
    ScriptProfile("sinh", "Burmese", "Sinhala", [Correction("..", ".")])
  ]

  // ---------------------------------------------------------------------------
  // Corrections
  // ---------------------------------------------------------------------------

  /** The correction loop: each rule with a non-empty `from` replaces all its
      occurrences in the output of the previous rule. */
  function ApplyRules(text: string, rules: seq<Correction>): string
    decreases |rules|
  {
    if rules == [] then text
    else
      var next := if rules[0].from != [] then ReplaceAll(text, rules[0].from, rules[0].to) else text;
      ApplyRules(next, rules[1..])
  }

  lemma {:induction false} ApplyRulesToEmpty(rules: seq<Correction>)
    ensures ApplyRules([], rules) == []
    decreases |rules|
  {
    if rules != [] {
      ApplyRulesToEmpty(rules[1..]);
    }
  }

  /** `apply_text_corrections`: an empty text or an empty rule list is returned at once;
      that early return agrees with running the loop. */
  function ApplyCorrections(text: string, rules: seq<Correction>): (r: string)
    ensures text == [] || rules == [] ==> r == text
    ensures r == ApplyRules(text, rules)
  {
    if text == [] || rules == [] then
      ApplyRulesToEmpty(rules);
      text
    else ApplyRules(text, rules)
  }

  /** Rules apply in list order: applying `r1 + r2` is applying `r1`, then `r2`. */
  lemma {:induction false} ApplyCorrectionsCompose(text: string, r1: seq<Correction>, r2: seq<Correction>)
    ensures ApplyCorrections(text, r1 + r2) == ApplyCorrections(ApplyCorrections(text, r1), r2)
    decreases |r1|
  {
    if r1 != [] {
      var next := if r1[0].from != [] then ReplaceAll(text, r1[0].from, r1[0].to) else text;
      assert (r1 + r2)[1..] == r1[1..] + r2;
      ApplyCorrectionsCompose(next, r1[1..], r2);
    } else {
      assert r1 + r2 == r2;
    }
  }

  /** The rules that take part: those whose `from` is non-empty. */
  function Effective(rules: seq<Correction>): (e: seq<Correction>)
    ensures forall c :: c in e ==> c in rules && c.from != []
    decreases |rules|
  {
    if rules == [] then []
    else if rules[0].from == [] then Effective(rules[1..])
    else [rules[0]] + Effective(rules[1..])
  }

  /** Rules with an empty `from` have no effect. */
  lemma {:induction false} EmptyFromSkipped(text: string, rules: seq<Correction>)
    ensures ApplyCorrections(text, rules) == ApplyCorrections(text, Effective(rules))
    decreases |rules|
  {
    if rules != [] {
      var next := if rules[0].from != [] then ReplaceAll(text, rules[0].from, rules[0].to) else text;
      EmptyFromSkipped(next, rules[1..]);
    }
  }

  /** One rule splits the text at its `from` and joins the pieces with its `to`. */
  lemma SingleRuleIsSplitJoin(text: string, c: Correction)
    requires c.from != []
    ensures ApplyCorrections(text, [c]) == Join(Split(text, c.from), c.to)
  {
    assert ApplyRules(text, [c]) == ApplyRules(ReplaceAll(text, c.from, c.to), []);
    ReplaceIsSplitJoin(text, c.from, c.to);
  }

  /** A rule that maps its `from` to itself leaves every text unchanged. */
  lemma SelfRuleIsIdentity(text: string, s: string)
    ensures ApplyCorrections(text, [Correction(s, s)]) == text
  {
    var c := Correction(s, s);
    if s != [] {
      assert ApplyRules(text, [c]) == ApplyRules(ReplaceAll(text, s, s), []);
      ReplaceBySelf(text, s);
    } else {
      assert ApplyRules(text, [c]) == ApplyRules(text, []);
    }
  }

  /** The correction is a single pass, not a fixpoint: `....` with `..` to `.` gives
      `..`, and correcting that again gives `.`. */
  lemma CorrectionIsSinglePass()
    ensures ApplyCorrections("....", [Correction("..", ".")]) == ".."
    ensures ApplyCorrections("..", [Correction("..", ".")]) == "."
  {
    var dd := "..";
    assert dd <= "....";
    assert "...."[2..] == dd;
    assert dd <= dd;
    assert dd[2..] == [];
    assert ReplaceAll(dd, dd, ".") == "." + ReplaceAll([], dd, ".");
    assert ReplaceAll("....", dd, ".") == "." + ReplaceAll(dd, dd, ".");
  }

  // ---------------------------------------------------------------------------
  // Transliteration
  // ---------------------------------------------------------------------------

  /** `convert_text_with_aksharamukha`: empty or whitespace-only text is returned as is;
      otherwise the engine's output, or the original text when the engine raises. The
      failure never reaches the caller. */
  function ConvertText(engine: Transliterator, text: string, source: string, target: string): (r: string)
    ensures IsBlank(text) ==> r == text
    ensures engine(source, target, text).None? ==> r == text
    ensures !IsBlank(text) && engine(source, target, text).Some? ==> r == engine(source, target, text).value
    ensures r == text || engine(source, target, text) == Some(r)
  {
    if IsBlank(text) then text
    else
      match engine(source, target, text)
      case Some(converted) => converted
      case None => text
  }

  /** The index of the first profile for `code`. */
  function FirstWithCode(ps: seq<ScriptProfile>, code: string): (r: Option<nat>)
    ensures r.None? <==> forall j :: 0 <= j < |ps| ==> ps[j].code != code
    ensures r.Some? ==> r.value < |ps| && ps[r.value].code == code
    ensures r.Some? ==> forall j :: 0 <= j < r.value ==> ps[j].code != code
    decreases |ps|
  {
    if ps == [] then None
    else if ps[0].code == code then Some(0)
    else
      match FirstWithCode(ps[1..], code)
      case None => None
      case Some(i) => Some(i + 1)
  }

  /** `get_transliteration_config`: the first profile whose code matches, if any. */
  function GetTransliterationConfig(code: string): (r: Option<ScriptProfile>)
    ensures r.Some? ==> r.value in Profiles && r.value.code == code
    ensures r.None? <==> forall j :: 0 <= j < |Profiles| ==> Profiles[j].code != code
  {
    match FirstWithCode(Profiles, code)
    case None => None
    case Some(i) => Some(Profiles[i])
  }

  /** Every target script has a profile and the native script has none: conversion is
      a no-op for the native code and for any code outside the script list. */
  lemma ProfiledCodes(code: string)
    ensures GetTransliterationConfig(code).Some? <==> code in ScriptCodes && code != NativeScript
  {
    if code in ScriptCodes && code != NativeScript {
      ScriptCodeHasProfile(code);
    }
    if GetTransliterationConfig(code).Some? {
      ProfileHasScriptCode(code);
    }
  }

  lemma ScriptCodeHasProfile(code: string)
    requires code in ScriptCodes && code != NativeScript
    ensures GetTransliterationConfig(code).Some?
  {
    var i :| 0 <= i < |ScriptCodes| && ScriptCodes[i] == code;
    var j := if i == 1 then 1 else if i == 2 then 6 else if i == 3 then 0 else if i == 4 then 2
             else if i == 5 then 3 else if i == 6 then 5 else 4;
    assert Profiles[j].code == ScriptCodes[i];
  }

  lemma ProfileHasScriptCode(code: string)
    requires GetTransliterationConfig(code).Some?
    ensures code in ScriptCodes && code != NativeScript
  {
    var j := FirstWithCode(Profiles, code).value;
    assert Profiles[j].code == code;
    ProfileCodeListed(j);
  }

  /** Each profile's code is a script code other than the native one. */
  lemma ProfileCodeListed(j: nat)
    requires j < |Profiles|
    ensures Profiles[j].code in ScriptCodes && Profiles[j].code != NativeScript
  {
    var i := if j == 0 then 3 else if j == 1 then 1 else if j == 2 then 4 else if j == 3 then 5
             else if j == 4 then 7 else if j == 5 then 6 else 2;
    assert ScriptCodes[i] == Profiles[j].code;
  }

  /** The conversion of a name or title used for book names, abbreviations, chapter names
      and hierarchy segment names: no-op for the native script or a code without a
      profile, otherwise transliterate and then correct. */
  function ConvertName(engine: Transliterator, text: string, code: string): (r: string)
    ensures code == NativeScript || GetTransliterationConfig(code).None? ==> r == text
    ensures GetTransliterationConfig(code).Some? && code != NativeScript ==>
              var p := GetTransliterationConfig(code).value;
              && (engine(p.source, p.target, text).None? ==> r == ApplyCorrections(text, p.corrections))
              && (IsBlank(text) ==> r == ApplyCorrections(text, p.corrections))
              && (!IsBlank(text) && engine(p.source, p.target, text).Some? ==>
                    r == ApplyCorrections(engine(p.source, p.target, text).value, p.corrections))
  {
    if code == NativeScript then text
    else
      match GetTransliterationConfig(code)
      case None => text
      case Some(p) => ApplyCorrections(ConvertText(engine, text, p.source, p.target), p.corrections)
  }

  /** The replacement applied to each text run selected in HTML content: a
      whitespace-only run is kept as it is; any other run is transliterated and then
      corrected, and when the engine raises the corrections still apply to the
      original run. */
  function ConvertRun(engine: Transliterator, p: ScriptProfile, t: string): (r: string)
    ensures IsBlank(t) ==> r == t
    ensures !IsBlank(t) && engine(p.source, p.target, t).None? ==> r == ApplyCorrections(t, p.corrections)
    ensures !IsBlank(t) && engine(p.source, p.target, t).Some? ==>
              r == ApplyCorrections(engine(p.source, p.target, t).value, p.corrections)
  {
    if IsBlank(t) then t
    else ApplyCorrections(ConvertText(engine, t, p.source, p.target), p.corrections)
  }

  function RunConverter(engine: Transliterator, p: ScriptProfile): string -> string
  {
    (t: string) => ConvertRun(engine, p, t)
  }

  /** `convert_html_content`: the identity for empty input, the native script and a code
      without a profile; otherwise every selected text run is converted and all other
      characters, every tag among them, are copied (`ConvertHtmlIsBlockwise`). Input
      with neither `<` nor `>` comes out unchanged for every code. */
  function ConvertHtml(engine: Transliterator, html: string, code: string): (r: string)
    ensures html == [] || code == NativeScript || GetTransliterationConfig(code).None? ==> r == html
    ensures '<' !in html && '>' !in html ==> r == html
  {
    if html == [] || code == NativeScript then html
    else
      match GetTransliterationConfig(code)
      case None => html
      case Some(p) =>
        var f := RunConverter(engine, p);
        Markup.NoBracketsUnchanged(html, f);
        Markup.RegexSub(html, f)
  }

  /** For a profiled code, HTML content is rewritten block by block: the text before the
      first `<` is converted whole, and in every later block only the text after its
      first `>` is converted. */
  lemma ConvertHtmlIsBlockwise(engine: Transliterator, html: string, code: string)
    requires html != [] && code != NativeScript && GetTransliterationConfig(code).Some?
    ensures ConvertHtml(engine, html, code)
         == Markup.Blockwise(html, RunConverter(engine, GetTransliterationConfig(code).value))
  {
    Markup.RegexSubIsBlockwise(html, RunConverter(engine, GetTransliterationConfig(code).value));
  }

  /** An element `<n>TEXT</n>` keeps both tags; its text is converted as one run. */
  lemma ConvertElement(engine: Transliterator, name: string, text: string, code: string)
    requires '<' !in name && '>' !in name
    requires '<' !in text && text != []
    requires code != NativeScript && GetTransliterationConfig(code).Some?
    ensures ConvertHtml(engine, "<" + name + ">" + text + "</" + name + ">", code)
         == "<" + name + ">" + ConvertRun(engine, GetTransliterationConfig(code).value, text) + "</" + name + ">"
  {
    var f := RunConverter(engine, GetTransliterationConfig(code).value);
    Markup.ElementText(name, text, f);
  }
}
