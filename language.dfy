/**
 * Language codes: the post-processing of `detect_lang_auto` and the file name
 * chosen by `tsv_path_for_lang` (lookup_to_anki_multi_lang.py).
 */
module Language {
  import opened Wrappers
  import opened Text

  /** The names `trans -id` may print, mapped to codes. */
  const LanguageNames: map<string, string> := map[
    "english" := "en", "swedish" := "sv", "svenska" := "sv",
    "chinese" := "zh", "chinese (simplified)" := "zh"
  ]

  /**
   * The code chosen from the two detectors' outputs. `detected` is what
   * `langdetect.detect(text)` returned (`None` when it raised or is not
   * installed); `identified` is what `trans -id -b` printed (`None` when the
   * call raised). A non-empty first answer wins, cut at its first `-`; then
   * the translator's answer, stripped and lowercased, through the name
   * table or cut at `-` and to two characters; otherwise `"en"`.
   */
  function DetectLangAuto(detected: Option<string>, identified: Option<string>): (code: string)
    ensures '-' !in code
    ensures Present(detected) ==>
      |code| <= |detected.value| && code == detected.value[..|code|] &&
      (|code| < |detected.value| ==> detected.value[|code|] == '-')
    ensures !Present(detected) ==> |code| <= 2 && NoUpper(code)
    ensures !Present(detected) && (identified.None? || AllSpace(identified.value)) ==> code == "en"
  {
    if Present(detected) then BeforeFirstSlice(detected.value, '-'); BeforeFirst(detected.value, '-')
    else if identified.None? then "en"
    else
      if AllSpace(identified.value) then BlankIdentifiedIsEn(identified.value); IdentifiedCode(identified.value)
      else IdentifiedCode(identified.value)
  }

  /** Blank translator output carries no name and no code, so the default applies. */
  lemma BlankIdentifiedIsEn(out: string)
    requires AllSpace(out)
    ensures IdentifiedCode(out) == "en"
  {
    assert Strip(out) == "";
  }

  /** The code read from the translator's language identification output. */
  function IdentifiedCode(out: string): (code: string)
    ensures '-' !in code && |code| <= 2 && NoUpper(code)
  {
    var name := Lower(Strip(out));
    var known := KnownName(name);
    if known.Some? then known.value
    else if name != "" then ShortCode(name)
    else DefaultCodeFacts(); "en"
  }

  lemma DefaultCodeFacts()
    ensures '-' !in "en" && |"en"| <= 2 && NoUpper("en")
  {
    assert "en"[0] == 'e' && "en"[1] == 'n';
  }

  /** The table entry for a language name, if any. */
  function KnownName(name: string): (code: Option<string>)
    ensures code.Some? <==> name in LanguageNames
    ensures code.Some? ==> |code.value| == 2 && NoUpper(code.value) && '-' !in code.value
  {
    if name in LanguageNames then Some(LanguageNames[name]) else None
  }

  /** At most two characters of the part before the first `-`. */
  function ShortCode(name: string): (code: string)
    requires NoUpper(name)
    ensures '-' !in code && |code| <= 2 && NoUpper(code)
  {
    BeforeFirstSlice(name, '-');
    var c := Take(BeforeFirst(name, '-'), 2);
    assert forall i :: 0 <= i < |c| ==> c[i] == name[i];
    c
  }

  /** Names from the table are recognised whatever their case and surrounding whitespace. */
  lemma NamesNormalised(detected: Option<string>, out: string)
    requires !Present(detected)
    requires Lower(Strip(out)) in LanguageNames
    ensures DetectLangAuto(detected, Some(out)) == LanguageNames[Lower(Strip(out))]
    ensures DetectLangAuto(detected, Some(out)) in {"en", "sv", "zh"}
  {
  }

  /**
   * An unknown, non-blank name is cut at its first `-` and to two
   * characters: the code is a prefix of the name, and when shorter than two
   * characters it stops at a `-` or at the end of the name.
   */
  lemma UnknownNameShortened(detected: Option<string>, out: string)
    requires !Present(detected)
    requires Lower(Strip(out)) !in LanguageNames && Lower(Strip(out)) != ""
    ensures var name, code := Lower(Strip(out)), DetectLangAuto(detected, Some(out));
      && code == name[..|code|] && '-' !in code
      && (|code| < 2 ==> |code| == |name| || name[|code|] == '-')
  {
    var name := Lower(Strip(out));
    BeforeFirstSlice(name, '-');
    assert DetectLangAuto(detected, Some(out)) == Take(BeforeFirst(name, '-'), 2);
  }

  /** `(lang_code or "en")`. */
  function OrEn(lang: Option<string>): string
  {
    if Present(lang) then lang.value else "en"
  }

  /**
   * The code in the file name: lowercased, and, when longer than two
   * characters, cut at its first `-`.
   */
  function FileCode(lang: Option<string>): (code: string)
    ensures NoUpper(code)
    ensures var l := Lower(OrEn(lang));
      if |l| <= 2 then code == l
      else '-' !in code && |code| <= |l| && code == l[..|code|] && (|code| < |l| ==> l[|code|] == '-')
  {
    var l := Lower(OrEn(lang));
    if |l| > 2 then
      var c := BeforeFirst(l, '-');
      BeforeFirstSlice(l, '-');
      forall i | 0 <= i < |c| ensures !('A' <= c[i] <= 'Z') { assert c[i] == l[i]; }
      c
    else l
  }

  /** The code a `vocab_<code>.tsv` name carries (the inverse of the naming). */
  function CodeOfTsvName(name: string): Option<string>
  {
    if |name| >= 10 && name[..6] == "vocab_" && name[|name| - 4..] == ".tsv"
    then Some(name[6..|name| - 4])
    else None
  }

  /** `tsv_path_for_lang`: the file name for a language, from which the code reads back. */
  function TsvPathForLang(lang: Option<string>): (name: string)
    ensures |name| == |FileCode(lang)| + 10
    ensures CodeOfTsvName(name) == Some(FileCode(lang))
  {
    var name := "vocab_" + FileCode(lang) + ".tsv";
    assert name[..6] == "vocab_" && name[|name| - 4..] == ".tsv";
    assert name[6..|name| - 4] == FileCode(lang);
    name
  }

  /** A code of one or two characters names the same file with any region suffix. */
  lemma {:induction false} RegionSuffixIgnored(base: string, region: string)
    requires 1 <= |base| <= 2 && '-' !in base && region != ""
    ensures TsvPathForLang(Some(base + "-" + region)) == TsvPathForLang(Some(base))
  {
    var lb := Lower(base);
    var l := Lower(base + "-" + region);
    LowerAppend(base + "-", region);
    LowerAppend(base, "-");
    assert Lower("-") == "-";
    assert l == lb + ['-'] + Lower(region);
    assert '-' !in lb by {
      forall i | 0 <= i < |lb| ensures lb[i] != '-' { assert base[i] != '-'; }
    }
    BeforeFirstAt(lb, '-', Lower(region));
    assert FileCode(Some(base + "-" + region)) == lb;
    assert FileCode(Some(base)) == lb;
  }

  /** `"zh"` names `vocab_zh.tsv`, and so do `"zh-cn"` and `"ZH-CN"`. */
  lemma ChineseVariantsShareFile()
    ensures TsvPathForLang(Some("zh")) == "vocab_zh.tsv"
    ensures TsvPathForLang(Some("zh-cn")) == "vocab_zh.tsv"
    ensures TsvPathForLang(Some("ZH-CN")) == "vocab_zh.tsv"
  {
    ZhIsLower();
    RegionSuffixIgnored("zh", "cn");
    assert "zh" + "-" + "cn" == "zh-cn";
    RegionSuffixIgnored("ZH", "CN");
    assert "ZH" + "-" + "CN" == "ZH-CN";
  }

  lemma ZhIsLower()
    ensures FileCode(Some("zh")) == "zh" && FileCode(Some("ZH")) == "zh"
  {
    var lo, up := Lower("zh"), Lower("ZH");
    assert lo[0] == up[0] == 'z' && lo[1] == up[1] == 'h';
  }

  /** A lowercase code of one or two characters names its own file. */
  lemma ShortCodeNamesItself(code: string)
    requires 1 <= |code| <= 2 && NoUpper(code)
    ensures TsvPathForLang(Some(code)) == "vocab_" + code + ".tsv"
  {
    assert Lower(code) == code by {
      forall i | 0 <= i < |code| ensures Lower(code)[i] == code[i] { }
    }
  }

  /** No code, or an empty one, names `vocab_en.tsv`. */
  lemma MissingCodeIsEnglish()
    ensures TsvPathForLang(None) == TsvPathForLang(Some("")) == "vocab_en.tsv"
  {
    var en := Lower("en");
    assert en[0] == 'e' && en[1] == 'n';
  }

  /** Naming is stable: a non-empty file code names its own file again. */
  lemma {:induction false} FileCodeIdempotent(lang: Option<string>)
    requires FileCode(lang) != ""
    ensures FileCode(Some(FileCode(lang))) == FileCode(lang)
  {
    var c := FileCode(lang);
    assert Lower(c) == c by {
      forall i | 0 <= i < |c| ensures Lower(c)[i] == c[i] { }
    }
    var l := Lower(OrEn(lang));
    if |c| > 2 {
      assert '-' !in c;
      BeforeFirstSlice(c, '-');
      assert BeforeFirst(c, '-') == c;
    }
  }
}
