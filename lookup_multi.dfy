/**
 * `main` of lookup_to_anki_multi_lang.py: resolve the language, look the
 * term up along the branch for that language, pronounce it, and append the
 * record to the file for the language.
 */
module MultiLang {
  import opened Wrappers
  import opened Text
  import opened Language
  import opened Translate
  import opened Dictionary
  import opened Tsv
  import opened Audio

  /**
   * What the outside world answers during one run; `None` stands for a call
   * that raised. `toEn` and `toZh` are what translate-shell printed for the
   * term from the resolved language into English and into Chinese.
   */
  datatype Services = Services(
    detected: Option<string>,
    identified: Option<string>,
    dictionary: Response,
    toEn: Option<string>,
    toZh: Option<string>,
    onPath: map<string, string>,
    streamRaises: bool)

  /** What one run writes and plays. */
  datatype Outcome = Outcome(lang: string, file: string, line: string, commands: seq<string>)

  /**
   * `" ".join(args.term).strip()`: the space-joined terms with only the
   * whitespace at their two ends cut.
   */
  function Term(terms: seq<string>): (term: string)
    ensures Trimmed(term)
    ensures WhitespaceCut(Join(" ", terms), term)
  {
    StripCore(Join(" ", terms));
    Strip(Join(" ", terms))
  }

  /**
   * `args.lang.lower()`, with `auto` handed to the detectors. Only a code
   * langdetect supplied can carry upper case; translate-shell's answer and
   * the default are at most two characters.
   */
  function ResolveLang(flag: string, svc: Services): (lang: string)
    ensures Lower(flag) != "auto" ==> lang == Lower(flag)
    ensures Lower(flag) == "auto" ==> lang == DetectLangAuto(svc.detected, svc.identified)
    ensures !(Lower(flag) == "auto" && Present(svc.detected)) ==> NoUpper(lang)
    ensures Lower(flag) == "auto" && !Present(svc.detected) ==> |lang| <= 2 && '-' !in lang
  {
    var lang := Lower(flag);
    if lang == "auto" then DetectLangAuto(svc.detected, svc.identified) else lang
  }

  /**
   * The EN and ZH fields: English takes the dictionary's definitions;
   * Swedish and every other language take the translation into English.
   * A translated field is always one trimmed line.
   */
  function Fields(lang: string, svc: Services): (fields: (string, string))
    ensures fields.1 == Brief(svc.toZh)
    ensures lang == "en" ==> fields.0 == JoinDefs(Gloss(svc.dictionary).1)
    ensures lang != "en" ==> fields.0 == Brief(svc.toEn)
    ensures Trimmed(fields.1) && NoLineBreak(fields.1)
    ensures lang != "en" ==> Trimmed(fields.0) && NoLineBreak(fields.0)
  {
    BriefShape(svc.toZh);
    BriefShape(svc.toEn);
    if lang == "en" then (JoinDefs(Gloss(svc.dictionary).1), Brief(svc.toZh))
    else (Brief(svc.toEn), Brief(svc.toZh))
  }

  /**
   * What is played: only English passes the dictionary's recording on;
   * Swedish is spoken as Swedish and every other language as English.
   */
  function Sounds(cfg: Config, svc: Services, term: string, lang: string, noAudio: bool): seq<string>
  {
    if lang == "en" then Playback(cfg, svc.onPath, term, "en", Gloss(svc.dictionary).0, !noAudio, svc.streamRaises)
    else if lang == "sv" then Playback(cfg, svc.onPath, term, "sv", None, !noAudio, svc.streamRaises)
    else Playback(cfg, svc.onPath, term, "en", None, !noAudio, svc.streamRaises)
  }

  /** The run for a non-empty term list. */
  function Lookup(cfg: Config, svc: Services, terms: seq<string>, flag: string, noAudio: bool): Outcome
  {
    var term := Term(terms);
    var lang := ResolveLang(flag, svc);
    var fields := Fields(lang, svc);
    Outcome(lang, TsvPathForLang(Some(lang)), FormatLine(term, fields.0, fields.1),
            Sounds(cfg, svc, term, lang, noAudio))
  }

  /**
   * `main`. With no term argparse stops with status 2 before anything else
   * happens; otherwise the record is appended and the line returned.
   */
  method Run(repo: Repo, cfg: Config, svc: Services, terms: seq<string>, flag: string, noAudio: bool)
    returns (exit: int, saved: string, commands: seq<string>)
    modifies repo
    ensures terms == [] ==> exit == 2 && saved == "" && commands == [] && repo.files == old(repo.files)
    ensures terms != [] ==> var out := Lookup(cfg, svc, terms, flag, noAudio);
      && exit == 0 && saved == out.line && commands == out.commands
      && repo.files == old(repo.files)[out.file := old(repo.Content(out.file)) + out.line]
  {
    if terms == [] {
      return 2, "", [];
    }
    var term := Strip(Join(" ", terms));
    var lang := Lower(flag);
    if lang == "auto" {
      lang := DetectLangAuto(svc.detected, svc.identified);
    }
    var file := TsvPathForLang(Some(lang));
    var en, zh, audioUrl := "", "", None;
    if lang == "en" {
      var defs;
      audioUrl, defs := EnglishDefsFromDictionaryApi(svc.dictionary);
      en := JoinDefs(defs);
      zh := TransBrief(svc.toZh);
      commands := PlayAudio(cfg, svc.onPath, term, "en", audioUrl, !noAudio, svc.streamRaises);
    } else if lang == "sv" {
      en := TransBrief(svc.toEn);
      zh := TransBrief(svc.toZh);
      commands := PlayAudio(cfg, svc.onPath, term, "sv", None, !noAudio, svc.streamRaises);
    } else {
      en := TransBrief(svc.toEn);
      zh := TransBrief(svc.toZh);
      commands := PlayAudio(cfg, svc.onPath, term, "en", None, !noAudio, svc.streamRaises);
    }
    saved := repo.AppendTsv(file, term, en, zh);
    exit := 0;
  }

  /** An English run writes the joined definitions and the Chinese gloss, and may stream the recording. */
  lemma EnglishRun(cfg: Config, svc: Services, terms: seq<string>, flag: string, noAudio: bool)
    requires ResolveLang(flag, svc) == "en"
    ensures var out := Lookup(cfg, svc, terms, flag, noAudio);
      && out.line == FormatLine(Term(terms), JoinDefs(Gloss(svc.dictionary).1), Brief(svc.toZh))
      && out.commands == Playback(cfg, svc.onPath, Term(terms), "en", Gloss(svc.dictionary).0, !noAudio, svc.streamRaises)
  {
  }

  /** An English run is filed in `vocab_en.tsv`. */
  lemma EnglishFile(cfg: Config, svc: Services, terms: seq<string>, flag: string, noAudio: bool)
    requires ResolveLang(flag, svc) == "en"
    ensures Lookup(cfg, svc, terms, flag, noAudio).file == "vocab_en.tsv"
  {
    EnglishFileName();
  }

  lemma EnglishFileName()
    ensures TsvPathForLang(Some("en")) == "vocab_en.tsv"
  {
    ShortCodeNamesItself("en");
  }

  lemma FrenchFileName()
    ensures TsvPathForLang(Some("fr")) == "vocab_fr.tsv"
  {
    ShortCodeNamesItself("fr");
  }

  /**
   * Any other language never streams: playback is off, or the one command
   * speaks the term with the Swedish voice for `sv` and the English one
   * for everything else.
   */
  lemma OtherLanguagesOnlySpeak(cfg: Config, svc: Services, terms: seq<string>, flag: string, noAudio: bool)
    requires ResolveLang(flag, svc) != "en"
    ensures var out := Lookup(cfg, svc, terms, flag, noAudio);
      var voice := VoiceFor(cfg, if out.lang == "sv" then "sv" else "en");
      && out.line == FormatLine(Term(terms), Brief(svc.toEn), Brief(svc.toZh))
      && out.commands == (if noAudio then [] else [EspeakCommand(voice, Term(terms))])
  {
  }

  /** The record goes to the file named after the resolved language, whatever the branch. */
  lemma FileFollowsLanguage(cfg: Config, svc: Services, terms: seq<string>, flag: string, noAudio: bool)
    ensures var out := Lookup(cfg, svc, terms, flag, noAudio);
      && out.lang == ResolveLang(flag, svc)
      && CodeOfTsvName(out.file) == Some(FileCode(Some(out.lang)))
  {
  }


  /** `auto` with the detector answering `fr-FR` resolves to `fr`. */
  lemma DetectedFrenchCode(svc: Services)
    requires svc.detected == Some("fr-FR")
    ensures ResolveLang("auto", svc) == "fr"
  {
    assert Lower("auto") == "auto";
    assert BeforeFirst("fr-FR", '-') == "fr";
  }

  /** Detected French is handled by the generic branch and filed in `vocab_fr.tsv`. */
  lemma DetectedFrench(cfg: Config, svc: Services, terms: seq<string>, noAudio: bool)
    requires svc.detected == Some("fr-FR")
    ensures Lookup(cfg, svc, terms, "auto", noAudio).lang == "fr"
    ensures Lookup(cfg, svc, terms, "auto", noAudio).file == "vocab_fr.tsv"
  {
    DetectedFrenchCode(svc);
    FrenchFileName();
  }

  /** `--lang ZH-CN` is lowered and goes through the generic branch into `vocab_zh.tsv`. */
  lemma ForcedChinese(cfg: Config, svc: Services, terms: seq<string>, noAudio: bool)
    ensures Lookup(cfg, svc, terms, "ZH-CN", noAudio).lang == "zh-cn"
    ensures Lookup(cfg, svc, terms, "ZH-CN", noAudio).file == "vocab_zh.tsv"
  {
    assert Lower("ZH-CN") == "zh-cn";
    ChineseVariantsShareFile();
  }

  /**
   * Read back, the language's file holds its earlier records and then the
   * new one, provided every field is free of tabs and newlines.
   */
  lemma RunAddsRecord(cfg: Config, svc: Services, terms: seq<string>, flag: string, noAudio: bool, rs: seq<Record>)
    requires forall i :: 0 <= i < |rs| ==> Clean(rs[i])
    requires Clean(Record(Term(terms), Fields(ResolveLang(flag, svc), svc).0, Brief(svc.toZh)))
    ensures ReadRecords(Render(rs) + Lookup(cfg, svc, terms, flag, noAudio).line) ==
      Some(rs + [Record(Term(terms), Fields(ResolveLang(flag, svc), svc).0, Brief(svc.toZh))])
  {
    AppendAddsRecord(rs, Record(Term(terms), Fields(ResolveLang(flag, svc), svc).0, Brief(svc.toZh)));
  }
}
