/**
 * Pronouncing the headword in lookup_to_anki_multi_lang.py: the player
 * preference list, `pick_player`, the voice table and the choice
 * `play_audio` makes between streaming the dictionary's recording and
 * espeak. The commands are returned as the shell lines `sh` would run;
 * whether a program is on `PATH` is the map `onPath` from a name to the
 * path `shutil.which` finds for it.
 */
module Audio {
  import opened Wrappers
  import opened Text

  /** The settings read from the environment at start-up. */
  datatype Config = Config(mp3Player: Option<string>, voices: map<string, string>, defaultVoice: string)

  /** `os.environ.get(key, fallback)`. */
  function EnvGet(env: map<string, string>, key: string, fallback: string): string
  {
    if key in env then env[key] else fallback
  }

  /** `MP3_PLAYER` (possibly unset), `VOICE_MAP` and `DEFAULT_VOICE`. */
  function ConfigFromEnv(env: map<string, string>): Config
  {
    Config(
      if "MP3_PLAYER" in env then Some(env["MP3_PLAYER"]) else None,
      map["en" := EnvGet(env, "ESPEAK_VOICE_EN", "en-us"),
          "sv" := EnvGet(env, "ESPEAK_VOICE_SV", "sv"),
          "zh" := EnvGet(env, "ESPEAK_VOICE_ZH", "zh")],
      EnvGet(env, "ESPEAK_VOICE", "en-us"))
  }

  /** `PREFERRED_PLAYERS`: the configured player first, then the built-in order. */
  function Preferred(cfg: Config): (prefs: seq<Option<string>>)
    ensures |prefs| == 5 && prefs[0] == cfg.mp3Player
  {
    [cfg.mp3Player, Some("mpv"), Some("ffplay"), Some("mpg123"), Some("espeak-ng")]
  }

  /** `which(cmd)`: nothing for a missing or empty name, otherwise what `PATH` holds for it. */
  function Which(cmd: Option<string>, onPath: map<string, string>): (exe: Option<string>)
  {
    if cmd.None? || cmd.value == "" then None
    else if cmd.value in onPath then Some(onPath[cmd.value])
    else None
  }

  /** `if exe:` in `pick_player`: a path was found and it is not empty. */
  predicate Available(cmd: Option<string>, onPath: map<string, string>)
  {
    Present(Which(cmd, onPath))
  }

  /** The program name of the first available preference; `None` exactly when none is available. */
  function FirstFound(prefs: seq<Option<string>>, onPath: map<string, string>): (player: Option<string>)
    ensures player.None? <==> forall i :: 0 <= i < |prefs| ==> !Available(prefs[i], onPath)
  {
    if prefs == [] then None
    else if Available(prefs[0], onPath) then Some(Basename(Which(prefs[0], onPath).value))
    else
      assert forall i :: 1 <= i < |prefs| ==> prefs[i] == prefs[1..][i - 1];
      FirstFound(prefs[1..], onPath)
  }

  /** The preference at `i`, with none available before it, is the one chosen. */
  lemma {:induction false} FirstFoundAt(prefs: seq<Option<string>>, onPath: map<string, string>, i: nat)
    requires i < |prefs| && Available(prefs[i], onPath)
    requires forall j :: 0 <= j < i ==> !Available(prefs[j], onPath)
    ensures FirstFound(prefs, onPath) == Some(Basename(onPath[prefs[i].value]))
  {
    if i > 0 {
      assert prefs[1..][i - 1] == prefs[i];
      FirstFoundAt(prefs[1..], onPath, i - 1);
    }
  }

  /** An unset or empty `MP3_PLAYER` is passed over, and the built-in order decides. */
  lemma UnsetPlayerSkipped(cfg: Config, onPath: map<string, string>)
    requires cfg.mp3Player.None? || cfg.mp3Player == Some("")
    ensures FirstFound(Preferred(cfg), onPath) == FirstFound(Preferred(cfg)[1..], onPath)
  {
  }

  /** `pick_player`: walk the preferences and return the first one `which` finds, by file name. */
  method PickPlayer(prefs: seq<Option<string>>, onPath: map<string, string>) returns (player: Option<string>)
    ensures player == FirstFound(prefs, onPath)
  {
    for i := 0 to |prefs|
      invariant forall j :: 0 <= j < i ==> !Available(prefs[j], onPath)
    {
      var exe := Which(prefs[i], onPath);
      if exe.Some? && exe.value != "" {
        FirstFoundAt(prefs, onPath, i);
        return Some(Basename(exe.value));
      }
    }
    return None;
  }

  /** `VOICE_MAP.get(lang_code, DEFAULT_VOICE)`. */
  function VoiceFor(cfg: Config, lang: string): (voice: string)
  {
    if lang in cfg.voices then cfg.voices[lang] else cfg.defaultVoice
  }

  /** The players `play_audio` knows how to stream a URL with. */
  predicate Streamer(player: Option<string>)
  {
    player == Some("mpv") || player == Some("ffplay") || player == Some("mpg123")
  }

  function Quoted(s: string): string
  {
    "\"" + s + "\""
  }

  /** The command that streams `url` with one of the three players. */
  function StreamCommand(player: string, url: string): (cmd: string)
    requires Streamer(Some(player))
    ensures player + " " <= cmd
    ensures |cmd| >= |Quoted(url)| && cmd[|cmd| - |Quoted(url)|..] == Quoted(url)
  {
    var tail := Quoted(url);
    var cmd :=
      if player == "mpv" then "mpv --really-quiet --no-video " + tail
      else if player == "ffplay" then "ffplay -autoexit -nodisp -loglevel quiet " + tail
      else "mpg123 -q " + tail;
    assert cmd[|cmd| - |tail|..] == tail;
    cmd
  }

  /** `speak_with_espeak`'s command. */
  function EspeakCommand(voice: string, word: string): string
  {
    "espeak-ng -v " + voice + " " + Quoted(word)
  }

  /**
   * The commands `play_audio` runs, in order. `streamRaises` says whether
   * running the streaming command raised, in which case it falls through
   * to espeak; espeak's own failure is swallowed and changes nothing.
   */
  function Playback(cfg: Config, onPath: map<string, string>, word: string, lang: string,
                    audioUrl: Option<string>, enable: bool, streamRaises: bool): seq<string>
  {
    if !enable then []
    else
      var player := FirstFound(Preferred(cfg), onPath);
      var speak := EspeakCommand(VoiceFor(cfg, lang), word);
      if Present(audioUrl) && Streamer(player) then
        [StreamCommand(player.value, audioUrl.value)] + (if streamRaises then [speak] else [])
      else [speak]
  }

  /** `play_audio`: pick the player, stream when it can, otherwise speak. */
  method PlayAudio(cfg: Config, onPath: map<string, string>, word: string, lang: string,
                   audioUrl: Option<string>, enable: bool, streamRaises: bool) returns (commands: seq<string>)
    ensures commands == Playback(cfg, onPath, word, lang, audioUrl, enable, streamRaises)
  {
    if !enable {
      return [];
    }
    var player := PickPlayer(Preferred(cfg), onPath);
    var speak := EspeakCommand(VoiceFor(cfg, lang), word);
    commands := [];
    if audioUrl.Some? && audioUrl.value != "" && Streamer(player) {
      commands := [StreamCommand(player.value, audioUrl.value)];
      if !streamRaises {
        return;
      }
    }
    commands := commands + [speak];
  }

  /**
   * Whenever playback is on, the last command speaks the word with the
   * voice for its language, except after a stream that ran; and a stream
   * runs the picked player on exactly the dictionary URL.
   */
  lemma PlaybackShape(cfg: Config, onPath: map<string, string>, word: string, lang: string,
                      audioUrl: Option<string>, enable: bool, streamRaises: bool)
    ensures var cmds := Playback(cfg, onPath, word, lang, audioUrl, enable, streamRaises);
      && (!enable <==> cmds == [])
      && (enable && !(Present(audioUrl) && Streamer(FirstFound(Preferred(cfg), onPath))) ==>
            cmds == [EspeakCommand(VoiceFor(cfg, lang), word)])
      && (enable && Present(audioUrl) && Streamer(FirstFound(Preferred(cfg), onPath)) ==>
            |cmds| == (if streamRaises then 2 else 1) &&
            FirstFound(Preferred(cfg), onPath).value + " " <= cmds[0] &&
            cmds[0][|cmds[0]| - |Quoted(audioUrl.value)|..] == Quoted(audioUrl.value) &&
            (streamRaises ==> cmds[1] == EspeakCommand(VoiceFor(cfg, lang), word)))
  {
  }

  /** With only the default environment, Swedish is spoken with `sv` and an unknown code with `en-us`. */
  lemma DefaultVoices(lang: string)
    requires lang !in {"en", "sv", "zh"}
    ensures VoiceFor(ConfigFromEnv(map[]), "sv") == "sv"
    ensures VoiceFor(ConfigFromEnv(map[]), "zh") == "zh"
    ensures VoiceFor(ConfigFromEnv(map[]), "en") == "en-us"
    ensures VoiceFor(ConfigFromEnv(map[]), lang) == "en-us"
  {
  }

  /**
   * A configured player that is installed but cannot stream (`vlc`, say) is
   * still picked first, so the recording is never streamed, even when `mpv`
   * is installed too: the word is spoken by espeak instead.
   */
  lemma OtherPlayerMeansEspeak(cfg: Config, onPath: map<string, string>, word: string, lang: string,
                               url: string, streamRaises: bool)
    requires cfg.mp3Player.Some? && cfg.mp3Player.value != "" && cfg.mp3Player.value in onPath && onPath[cfg.mp3Player.value] != ""
    requires !Streamer(Some(Basename(onPath[cfg.mp3Player.value])))
    ensures Playback(cfg, onPath, word, lang, Some(url), true, streamRaises) == [EspeakCommand(VoiceFor(cfg, lang), word)]
  {
    FirstFoundAt(Preferred(cfg), onPath, 0);
  }
}
