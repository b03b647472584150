/**
 * lookup_to_anki.py, the English-only variant: look the word up in the
 * dictionary, gloss it into Chinese, pronounce it with the configured player
 * (no `PATH` check) or espeak, and append the record to `vocab.tsv`.
 */
module SingleLang {
  import opened Wrappers
  import opened Text
  import opened Translate
  import opened Dictionary
  import opened Tsv
  import opened Audio

  /** `MP3_PLAYER` and `ESPEAK_VOICE`, read from the environment at start-up. */
  datatype Settings = Settings(mp3Player: string, espeakVoice: string)

  function SettingsFromEnv(env: map<string, string>): (s: Settings)
  {
    Settings(EnvGet(env, "MP3_PLAYER", "mpg123"), EnvGet(env, "ESPEAK_VOICE", "en-us"))
  }

  /**
   * With neither variable set, a recording streams with `mpg123 -q` and the
   * word is otherwise spoken with the `en-us` voice.
   */
  lemma DefaultSettings(word: string, url: string)
    requires url != ""
    ensures SettingsFromEnv(map[]) == Settings("mpg123", "en-us")
    ensures SinglePlayback(SettingsFromEnv(map[]), word, Some(url), false) == ["mpg123 -q \"" + url + "\""]
    ensures SinglePlayback(SettingsFromEnv(map[]), word, None, false) == ["espeak-ng -v en-us \"" + word + "\""]
  {
    var settings := SettingsFromEnv(map[]);
    assert EspeakCommand(settings.espeakVoice, word) == "espeak-ng -v en-us \"" + word + "\"";
    assert settings.mp3Player + " -q " + Quoted(url) == "mpg123 -q \"" + url + "\"";
  }

  /**
   * What the outside world answers during one run: the dictionary, what
   * translate-shell printed for the word into Chinese (`None`: the call
   * raised), and whether running the player raised.
   */
  datatype Services = Services(dictionary: Response, toZh: Option<string>, streamRaises: bool)

  /** What one run writes and plays. */
  datatype Outcome = Outcome(line: string, commands: seq<string>)

  /** The file every record of this variant goes to. */
  const TsvFile := "vocab.tsv"

  /**
   * `chinese_gloss_with_trans`: the whole output is stripped, then the first
   * non-blank line is taken and stripped; a call that raised gives `""`.
   * The gloss is the one `trans_brief` picks from the same output.
   */
  method ChineseGlossWithTrans(out: Option<string>) returns (zh: string)
    ensures zh == FirstNonBlank(Lines(Strip(OrEmpty(out))))
    ensures zh == Brief(out)
    ensures Trimmed(zh) && NoLineBreak(zh)
  {
    if out.None? {
      return "";
    }
    var stripped := Strip(out.value);
    zh := TransBrief(Some(stripped));
    StripFirstKeepsGloss(out.value);
  }

  /** The commands `play_audio` runs: the configured player for a recording, espeak otherwise or after it raised. */
  function SinglePlayback(settings: Settings, word: string, audioUrl: Option<string>, streamRaises: bool): seq<string>
  {
    var speak := EspeakCommand(settings.espeakVoice, word);
    if Present(audioUrl) then
      [settings.mp3Player + " -q " + Quoted(audioUrl.value)] + (if streamRaises then [speak] else [])
    else [speak]
  }

  /** `play_audio`. */
  method PlayAudio(settings: Settings, word: string, audioUrl: Option<string>, streamRaises: bool)
    returns (commands: seq<string>)
    ensures commands == SinglePlayback(settings, word, audioUrl, streamRaises)
  {
    commands := [];
    if audioUrl.Some? && audioUrl.value != "" {
      commands := [settings.mp3Player + " -q " + Quoted(audioUrl.value)];
      if !streamRaises {
        return;
      }
    }
    commands := commands + [EspeakCommand(settings.espeakVoice, word)];
  }

  /**
   * `append_tsv(word, en_defs, zh_gloss)`: join the definitions with `" ; "`
   * and append the line to `vocab.tsv`; every other file is left alone.
   */
  method AppendTsv(repo: Repo, word: string, enDefs: seq<string>, zhGloss: string) returns (line: string)
    modifies repo
    ensures line == FormatLine(word, JoinDefs(enDefs), zhGloss)
    ensures repo.files == old(repo.files)[TsvFile := old(repo.Content(TsvFile)) + line]
  {
    line := repo.AppendTsv(TsvFile, word, JoinDefs(enDefs), zhGloss);
  }

  /**
   * `" ".join(sys.argv[1:]).strip()`: the arguments after the program name,
   * joined with spaces, with only the whitespace at their two ends cut.
   */
  function Word(argv: seq<string>): (word: string)
    requires |argv| >= 2
    ensures Trimmed(word)
    ensures WhitespaceCut(Join(" ", argv[1..]), word)
  {
    StripCore(Join(" ", argv[1..]));
    Strip(Join(" ", argv[1..]))
  }

  /** The run for a command line with at least one argument. */
  function Lookup(settings: Settings, svc: Services, argv: seq<string>): Outcome
    requires |argv| >= 2
  {
    var word := Word(argv);
    var gloss := Gloss(svc.dictionary);
    Outcome(FormatLine(word, JoinDefs(gloss.1), Brief(svc.toZh)),
            SinglePlayback(settings, word, gloss.0, svc.streamRaises))
  }

  /**
   * `main`, with `argv` including the program name. Without an argument it
   * stops with status 1 and touches nothing; otherwise the record is
   * appended to `vocab.tsv` and the line returned.
   */
  method Run(repo: Repo, settings: Settings, svc: Services, argv: seq<string>)
    returns (exit: int, saved: string, commands: seq<string>)
    modifies repo
    ensures |argv| < 2 ==> exit == 1 && saved == "" && commands == [] && repo.files == old(repo.files)
    ensures |argv| >= 2 ==> var out := Lookup(settings, svc, argv);
      && exit == 0 && saved == out.line && commands == out.commands
      && repo.files == old(repo.files)[TsvFile := old(repo.Content(TsvFile)) + out.line]
  {
    if |argv| < 2 {
      return 1, "", [];
    }
    var word := Strip(Join(" ", argv[1..]));
    var audioUrl, enDefs := EnglishDefsFromDictionaryApi(svc.dictionary);
    var zhGloss := ChineseGlossWithTrans(svc.toZh);
    commands := PlayAudio(settings, word, audioUrl, svc.streamRaises);
    saved := AppendTsv(repo, word, enDefs, zhGloss);
    exit := 0;
  }

  /** The saved line is the word, the joined definitions and the gloss; it starts with the word and ends the line. */
  lemma SavedLine(settings: Settings, svc: Services, argv: seq<string>)
    requires |argv| >= 2
    ensures var out := Lookup(settings, svc, argv);
      && out.line == FormatLine(Word(argv), JoinDefs(Gloss(svc.dictionary).1), Brief(svc.toZh))
      && Word(argv) <= out.line
      && out.line[|out.line| - 1] == '\n'
  {
  }

  /**
   * Unlike the multi-language script, a recording is always handed to the
   * configured player, whether or not it is installed or can stream.
   */
  lemma RecordingGoesToConfiguredPlayer(settings: Settings, svc: Services, argv: seq<string>)
    requires |argv| >= 2
    requires Present(Gloss(svc.dictionary).0)
    ensures var out := Lookup(settings, svc, argv);
      && |out.commands| == (if svc.streamRaises then 2 else 1)
      && out.commands[0] == settings.mp3Player + " -q " + Quoted(Gloss(svc.dictionary).0.value)
      && (svc.streamRaises ==> out.commands[1] == EspeakCommand(settings.espeakVoice, Word(argv)))
  {
  }

  /** Without a recording the word is spoken once, with `ESPEAK_VOICE`. */
  lemma NoRecordingSpeaks(settings: Settings, svc: Services, argv: seq<string>)
    requires |argv| >= 2
    requires !Present(Gloss(svc.dictionary).0)
    ensures Lookup(settings, svc, argv).commands == [EspeakCommand(settings.espeakVoice, Word(argv))]
  {
  }

  /** A failed dictionary call is saved as its diagnostic and the word is spoken, never streamed. */
  lemma FailedLookupSavesDiagnostic(settings: Settings, svc: Services, argv: seq<string>, message: string)
    requires |argv| >= 2
    requires svc.dictionary == Failure(message)
    ensures var out := Lookup(settings, svc, argv);
      && out.line == FormatLine(Word(argv), "(dictapi error: " + message + ")", Brief(svc.toZh))
      && out.commands == [EspeakCommand(settings.espeakVoice, Word(argv))]
  {
    var defs := Gloss(svc.dictionary).1;
    assert defs == ["(dictapi error: " + message + ")"];
    assert JoinDefs(defs) == defs[0];
  }

  /**
   * Read back, the file holds its earlier records and then the new one,
   * provided every field is free of tabs and newlines.
   */
  lemma RunAddsRecord(settings: Settings, svc: Services, argv: seq<string>, rs: seq<Record>)
    requires |argv| >= 2
    requires forall i :: 0 <= i < |rs| ==> Clean(rs[i])
    requires Clean(Record(Word(argv), JoinDefs(Gloss(svc.dictionary).1), Brief(svc.toZh)))
    ensures ReadRecords(Render(rs) + Lookup(settings, svc, argv).line) ==
      Some(rs + [Record(Word(argv), JoinDefs(Gloss(svc.dictionary).1), Brief(svc.toZh))])
  {
    AppendAddsRecord(rs, Record(Word(argv), JoinDefs(Gloss(svc.dictionary).1), Brief(svc.toZh)));
  }
}
