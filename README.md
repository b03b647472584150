# Anki vocabulary capture — a Dafny model of its deterministic core

The repository holds two command-line scripts that look a word up and
append an Anki-ready `word<TAB>EN<TAB>ZH` line to a TSV file:

- `lookup_to_anki.py` is the English-only script. It takes definitions
  from dictionaryapi.dev and a Chinese gloss from translate-shell. It
  streams the pronunciation with the configured player or speaks it with
  espeak-ng, and appends to `vocab.tsv`.
- `lookup_to_anki_multi_lang.py` is the multi-language script. It resolves
  a language code (forced with `--lang`, or detected with langdetect, then
  `trans -id`, then `"en"`), picks a gloss strategy by language (`en`,
  `sv`, or generic), picks an installed audio player from a preference
  list, and appends to `vocab_<code>.tsv`.

Everything the scripts get from outside enters the model as a parameter:
the detector's answer, translate-shell's output, the parsed dictionary
response, which programs are on `PATH`, the environment, and whether a
subprocess raised. `None` stands for a call that raised. What remains is
string and record logic, and the model proves what it promises.

Modules, one per component:

- `Wrappers` holds `Option` and Python truthiness of optional strings.
- `Text` holds the Python `str` operations the scripts use. `strip` uses
  Python's exact whitespace set and `splitlines` its exact line
  boundaries. Also here are `lower`, `split(c)[0]`, slicing, `join`,
  `Path.name` and `str(int)`.
- `Language` models `detect_lang_auto`'s post-processing and
  `tsv_path_for_lang`.
- `Translate` models `trans_brief` / `chinese_gloss_with_trans`: the first
  non-blank line of the output, stripped.
- `Dictionary` models `english_defs_from_dictionaryapi` on a parsed
  response datatype. Its two copies in the scripts are identical, and one
  model serves both.
- `Tsv` models the line format and `append_tsv` on a `Repo` class whose
  `files` map the scripts append to. `ReadRecords` reads a file back as
  an importer splitting on tabs and newlines would. It is the partner the
  append is checked against.
- `Audio` models `PREFERRED_PLAYERS`, `which`, `pick_player`, `VOICE_MAP`
  and `play_audio` / `speak_with_espeak` of the multi-language script.
  Their result is the list of shell commands run.
- `MultiLang` is `main` of lookup_to_anki_multi_lang.py; `SingleLang` is
  lookup_to_anki.py.

Two behaviours of the scripts are worth knowing before reading the model:

- The scripts have no duplicate check. Appending a word twice writes two
  lines (`Tsv.SameRecordTwice`).
- The resolved language code is not always two letters. A detector answer
  of `-x` gives `""`, an identify answer `x` gives `"x"`, and a forced
  code is kept as typed, only lowercased.

## Model

| member | source | states |
|---|---|---|
| Language.DetectLangAuto | lookup_to_anki_multi_lang.py:75-99 | A non-empty detector answer wins, cut before its first `-` (the code is a prefix of the answer, followed by `-` or its end). Otherwise the code has at most 2 characters, no `-` and no upper case. It is `"en"` when the identify call raised or printed only whitespace. |
| Language.IdentifiedCode | lookup_to_anki_multi_lang.py:85-96 | The code read from `trans -id` output never holds `-`, has at most two characters and no upper case. |
| Language.KnownName | lookup_to_anki_multi_lang.py:89-94 | The name table answers exactly for its five names, always with a two-letter lowercase code. |
| Language.ShortCode | lookup_to_anki_multi_lang.py:95-96 | `code.split("-")[0][:2]` of a lowercase name is lowercase, free of `-`, and at most two characters. |
| Language.BlankIdentifiedIsEn | lookup_to_anki_multi_lang.py:87-99 | Blank translator output matches no name and is not truthy, so the default `"en"` applies. |
| Language.NamesNormalised | lookup_to_anki_multi_lang.py:87-94 | When the detector gave nothing, a known language name is recognised whatever its case and surrounding whitespace, and maps to `en`, `sv` or `zh` through the table. |
| Language.UnknownNameShortened | lookup_to_anki_multi_lang.py:95-96 | An unknown non-blank name gives a prefix of the stripped, lowercased name with no `-`. When that prefix is shorter than two characters, it stops at a `-` or at the end of the name. |
| Language.FileCode | lookup_to_anki_multi_lang.py:210-212 | The code `(lang or "en")`, lowercased, has no upper case. When it has at most two characters it is kept whole. A longer one keeps only its prefix up to the first `-`: no `-` inside, followed by `-` or the end. |
| Language.TsvPathForLang | lookup_to_anki_multi_lang.py:205-214 | The file name is `vocab_` + code + `.tsv`, and `CodeOfTsvName` reads the normalised code back from it. |
| Language.RegionSuffixIgnored | lookup_to_anki_multi_lang.py:210-213 | A one- or two-character code followed by `-` and any region names the same file as the bare code, whatever the letter case. |
| Language.ChineseVariantsShareFile | lookup_to_anki_multi_lang.py:205-214 | `zh`, `zh-cn` and `ZH-CN` all name `vocab_zh.tsv`. |
| Language.ShortCodeNamesItself | lookup_to_anki_multi_lang.py:210-213 | A lowercase code of one or two characters names its own file. |
| Language.MissingCodeIsEnglish | lookup_to_anki_multi_lang.py:210 | No code and the empty code both name `vocab_en.tsv`. |
| Language.FileCodeIdempotent | lookup_to_anki_multi_lang.py:210-213 | Normalising a non-empty normalised code again changes nothing. |
| Text.Strip | lookup_to_anki_multi_lang.py:105 | `str.strip()` leaves no whitespace at either end, and is empty exactly when the text is all whitespace. |
| Text.StripSlice | lookup_to_anki_multi_lang.py:105 | `str.strip()` returns a contiguous slice of its input, and what it cuts from the front and from the back is whitespace. |
| Text.StripCore | lookup_to_anki_multi_lang.py:105 | `str.strip()` is its input with only whitespace cut from the two ends (`WhitespaceCut`). |
| Text.StripUnique | lookup_to_anki_multi_lang.py:105 | Conversely, any trimmed result of cutting only whitespace from the two ends is `str.strip()`. Together with `Strip` and `StripCore`, this characterises `strip` completely. |
| Text.Lower | lookup_to_anki_multi_lang.py:226 | `str.lower()` keeps the length, maps each character independently, and leaves no upper-case letter. |
| Text.LowerAppend | lookup_to_anki_multi_lang.py:210 | Lowercasing distributes over concatenation. |
| Text.BeforeFirstSlice | lookup_to_anki_multi_lang.py:81 | `s.split(c)[0]` is a prefix of `s` with no `c`, and stops only at a `c`. |
| Text.LinesHaveNoBreak | lookup_to_anki_multi_lang.py:104 | No line from `splitlines()` holds a line boundary. |
| Text.Basename | lookup_to_anki_multi_lang.py:146 | `Path(exe).name` is the suffix after the last `/` and holds no `/`. |
| Text.NatToStringRoundTrip | lookup_to_anki_multi_lang.py:137 | The decimal status code in the diagnostic reads back as the same number. |
| Text.JoinLayout | lookup_to_anki_multi_lang.py:237 | `sep.join(xs)` holds item `i` at `Offset(sep, xs, i)`, has `sep` just before every item but the first, and is exactly as long as the items plus one `sep` per gap, so nothing else is in it. |
| Translate.FirstNonBlank | lookup_to_anki_multi_lang.py:104-110 | The chosen line has no whitespace at either end. |
| Translate.FirstNonBlankEmpty | lookup_to_anki_multi_lang.py:104-110 | The choice is `""` exactly when every line is blank. |
| Translate.FirstNonBlankIndex | lookup_to_anki_multi_lang.py:104-107 | A non-empty choice is the stripped form of a non-blank line, and every line before it is blank. |
| Translate.FirstNonBlankIsFirst | lookup_to_anki_multi_lang.py:101-110 | Both directions together: empty iff all lines are blank, otherwise the first non-blank line, stripped. |
| Translate.FirstNonBlankNoBreak | lookup_to_anki_multi_lang.py:104-107 | The chosen line holds no line boundary. |
| Translate.BriefShape | lookup_to_anki_multi_lang.py:101-110 | The gloss of any output, including a failed call, has no surrounding whitespace and no newline. It is empty exactly when all lines are blank. |
| Translate.TransBrief | lookup_to_anki_multi_lang.py:101-110 | The loop with early return computes the specified gloss, trimmed and without a line boundary. |
| Translate.StripFirstKeepsGloss | lookup_to_anki.py:75-80 | Stripping the whole output before `splitlines()` does not change the line chosen. |
| Dictionary.MeaningDefsLabelled | lookup_to_anki_multi_lang.py:126-132 | Definition `i` of a meaning is written from its JSON fields: `[` + the part of speech (empty when missing, `null` or empty) + `]`, then a space and the definition text without its trailing whitespace (nothing when the text is blank), then ` (e.g. ex)` when the example is truthy. One string per definition. |
| Dictionary.FormatDef | lookup_to_anki_multi_lang.py:128-132 | The string is `[part]`, then a space and the definition text without its trailing whitespace (nothing when the text is blank; a JSON `null` shows as `None`), then ` (e.g. ex)` when the example is truthy. So it begins with `[part]`, ends with the example when there is one, and is otherwise trimmed. |
| Dictionary.StripTagged | lookup_to_anki_multi_lang.py:130 | Stripping `"[part] text"` removes the space and the text when the text is blank, and otherwise only the text's trailing whitespace. |
| Dictionary.LabelSurvivesStrip | lookup_to_anki_multi_lang.py:130 | `.strip()` on `"[part] def"` never cuts into the bracketed part of speech. |
| Dictionary.FirstAudio | lookup_to_anki_multi_lang.py:120-124 | The audio URL is `None` exactly when no phonetic has a truthy `audio`. |
| Dictionary.FirstAudioAt | lookup_to_anki_multi_lang.py:120-124 | The first truthy `audio`, in order, is the one returned. |
| Dictionary.DefsCount | lookup_to_anki_multi_lang.py:125-134 | The list holds exactly one string per definition across all meanings. |
| Dictionary.DefsAt | lookup_to_anki_multi_lang.py:125-134 | Definition `di` of meaning `mi` sits at position (definitions of earlier meanings) + `di`: meaning-then-definition order. |
| Dictionary.EveryDefBracketed | lookup_to_anki_multi_lang.py:130-134 | Every string starts with `[`, so the `if short` test never drops one. |
| Dictionary.NoEntriesNoGloss | lookup_to_anki_multi_lang.py:118 | A non-list or empty response gives no audio and no definitions. |
| Dictionary.HttpErrorDiagnostic | lookup_to_anki_multi_lang.py:136-137 | An HTTP error gives no audio and the single string `(dictapi HTTP <code>)`, whose number reads back as the status. |
| Dictionary.FailureIsOneDiagnostic | lookup_to_anki_multi_lang.py:136-139 | Any failure gives no audio and one `(dictapi ...` string, which cannot be mistaken for a definition. |
| Dictionary.EnglishDefsFromDictionaryApi | lookup_to_anki_multi_lang.py:113-139 | The function after the fetch, with its error branches and its list check, returns exactly the specified audio URL and definition list. |
| Dictionary.FindAudio | lookup_to_anki_multi_lang.py:120-124 | The phonetics loop with `break` finds the first truthy audio. |
| Dictionary.CollectDefs | lookup_to_anki_multi_lang.py:125-134 | The nested meanings/definitions loops build exactly the specified list. |
| Dictionary.ShortDef | lookup_to_anki_multi_lang.py:128-132 | The loop body yields the formatted definition, which is never empty. |
| Dictionary.GlossShape | lookup_to_anki_multi_lang.py:118-135 | For a non-empty list, the definitions number exactly the definitions of the first entry, and none is empty. |
| Tsv.FormatLine | lookup_to_anki_multi_lang.py:184 | The line is the word, a tab, the EN field, a tab, the ZH field and a newline. Each piece sits at its position, and the length is the three fields plus three. |
| Tsv.ParseLine | lookup_to_anki_multi_lang.py:184 | A line that reads back as a record is exactly its three tab-free fields joined by tabs. |
| Tsv.SplitJoin | lookup_to_anki_multi_lang.py:184 | Splitting a line on tabs gives tab-free pieces that join back to the line. |
| Tsv.ParseFormat | lookup_to_anki_multi_lang.py:184 | A record whose fields hold no tab or newline parses back from its line. |
| Tsv.ReadRender | lookup_to_anki_multi_lang.py:181-187 | A file of appended clean lines reads back as exactly those records, in order. |
| Tsv.RenderSnoc | lookup_to_anki_multi_lang.py:185-186 | Appending a line to a file renders one more record at the end. |
| Tsv.AppendAddsRecord | lookup_to_anki_multi_lang.py:181-187 | After an append, the file reads back as the earlier records followed by the new one. |
| Tsv.SameRecordTwice | lookup_to_anki_multi_lang.py:181-187 | There is no duplicate check: the same record appended twice reads back twice. |
| Tsv.TabInWordBreaksLine | lookup_to_anki_multi_lang.py:184 | Fields are not escaped: a tab inside the word makes the line unreadable as a record. |
| Tsv.JoinDefs | lookup_to_anki_multi_lang.py:237 | The EN field holds every definition in order, definition `i` at `Offset(" ; ", defs, i)`, with `" ; "` just before every definition but the first. Its length is the definitions plus three per gap, so nothing else is in it. It begins with the first definition, and is empty exactly for no definitions or a single empty one. |
| Tsv.JoinFacts | lookup_to_anki.py:103 | `" ; ".join` begins with its first item and is empty only for `[]` or `[""]`. |
| Tsv.Repo.AppendTsv | lookup_to_anki_multi_lang.py:181-187 | Returns the formatted line and sets the file to its old content plus that line. A missing file counts as empty. The old content stays a prefix, and every other file is unchanged. |
| Audio.Preferred | lookup_to_anki_multi_lang.py:29-35 | Five preferences, with `MP3_PLAYER` (possibly unset) first. |
| Audio.FirstFound | lookup_to_anki_multi_lang.py:142-147 | No player exactly when no preference is available. |
| Audio.FirstFoundAt | lookup_to_anki_multi_lang.py:142-147 | The first available preference is chosen, by the file name of its path. |
| Audio.UnsetPlayerSkipped | lookup_to_anki_multi_lang.py:29-53 | An unset or empty `MP3_PLAYER` is passed over, and the built-in order decides. |
| Audio.PickPlayer | lookup_to_anki_multi_lang.py:142-147 | The loop with early return computes the specified choice. |
| Audio.StreamCommand | lookup_to_anki_multi_lang.py:160-170 | Each streaming command starts with the picked player's name and a space, and ends with the quoted audio URL. |
| Audio.PlayAudio | lookup_to_anki_multi_lang.py:156-173 | The method runs exactly the specified commands. |
| Audio.PlaybackShape | lookup_to_anki_multi_lang.py:156-173 | Disabled means nothing runs. Without a truthy URL and a streaming player, espeak alone speaks the word with the voice for its language (`VOICE_MAP.get(lang, DEFAULT_VOICE)`). Otherwise one command runs the picked player on that URL, followed by espeak only if the stream raised. |
| Audio.DefaultVoices | lookup_to_anki_multi_lang.py:37-42 | With no environment overrides, `VOICE_MAP.get(lang, DEFAULT_VOICE)` speaks `sv` as `sv`, `zh` as `zh`, and `en` and every other code as `en-us`. |
| Audio.OtherPlayerMeansEspeak | lookup_to_anki_multi_lang.py:159-160 | An installed `MP3_PLAYER` that cannot stream is still picked first, so the recording is never streamed and espeak speaks the word. |
| MultiLang.Term | lookup_to_anki_multi_lang.py:225 | The headword is the space-joined terms with only whitespace cut from the two ends (`WhitespaceCut`), and none left at either end. By `Text.StripUnique` that is exactly `strip()`. |
| MultiLang.ResolveLang | lookup_to_anki_multi_lang.py:226-229 | A forced code is only lowercased; `auto`, in any case, goes to the detectors. Only a code langdetect supplied can carry upper case. One from translate-shell or the default has at most two characters and no `-`. |
| MultiLang.Fields | lookup_to_anki_multi_lang.py:233-248 | The ZH field is always the Chinese gloss: one line with no surrounding whitespace. EN is the joined definitions for `en`, and otherwise the English translation, also one trimmed line. |
| MultiLang.Run | lookup_to_anki_multi_lang.py:217-251 | With no term it exits 2 and changes nothing. Otherwise it exits 0, returns the line and appends it to the file for the resolved language, leaving all other files unchanged. |
| MultiLang.EnglishRun | lookup_to_anki_multi_lang.py:235-239 | An English run saves the joined definitions and the Chinese gloss, and plays the dictionary URL with the English voice. |
| MultiLang.EnglishFile | lookup_to_anki_multi_lang.py:231-235 | An English run is filed in `vocab_en.tsv`. |
| MultiLang.OtherLanguagesOnlySpeak | lookup_to_anki_multi_lang.py:241-249 | Swedish and generic runs save the two translations and never stream. They speak once with the Swedish or the English voice, or not at all with `--no-audio`. |
| MultiLang.FileFollowsLanguage | lookup_to_anki_multi_lang.py:228-231 | The record goes to the file whose name carries the resolved code. |
| MultiLang.DetectedFrench | lookup_to_anki_multi_lang.py:228-231 | `auto` with the detector answering `fr-FR` resolves to `fr` and writes `vocab_fr.tsv`. |
| MultiLang.ForcedChinese | lookup_to_anki_multi_lang.py:226-231 | `--lang ZH-CN` runs the generic branch as `zh-cn` and writes `vocab_zh.tsv`. |
| MultiLang.RunAddsRecord | lookup_to_anki_multi_lang.py:251 | Read back, the file holds its earlier records and then the new one, when every field is clean. |
| SingleLang.DefaultSettings | lookup_to_anki.py:19-20 | With neither variable set, the player is `mpg123` and the voice `en-us`: a recording plays as `mpg123 -q "url"`, and without one espeak runs `espeak-ng -v en-us "word"`. |
| SingleLang.ChineseGlossWithTrans | lookup_to_anki.py:69-83 | The gloss is the first non-blank line of the stripped output, or `""` when the call raised. It equals what `trans_brief` picks from the same output, and is trimmed with no newline. |
| SingleLang.PlayAudio | lookup_to_anki.py:85-97 | It runs exactly the specified commands. |
| SingleLang.AppendTsv | lookup_to_anki.py:99-108 | The definitions are joined with `" ; "` (`""` for none) and formatted with the gloss. The line is appended to `vocab.tsv` and returned; every other file is unchanged. |
| SingleLang.Word | lookup_to_anki.py:123 | The word is `argv[1:]` joined with spaces, with only whitespace cut from the two ends (`WhitespaceCut`), and none left at either end. |
| SingleLang.Run | lookup_to_anki.py:118-131 | With fewer than two argv entries it exits 1 and changes nothing. Otherwise it appends the looked-up line to `vocab.tsv` and returns it. |
| SingleLang.SavedLine | lookup_to_anki.py:99-108 | The saved line is the word, the joined definitions and the gloss. It starts with the word and ends with a newline. |
| SingleLang.RecordingGoesToConfiguredPlayer | lookup_to_anki.py:85-92 | A truthy URL always goes to `MP3_PLAYER`, installed or not, and espeak follows only if that raised. |
| SingleLang.NoRecordingSpeaks | lookup_to_anki.py:93-97 | Without a recording the word is spoken once with `ESPEAK_VOICE`. |
| SingleLang.FailedLookupSavesDiagnostic | lookup_to_anki.py:64-67 | A failed dictionary call saves its diagnostic as the EN field, and the word is spoken, never streamed. |
| SingleLang.RunAddsRecord | lookup_to_anki.py:99-108 | Read back, `vocab.tsv` holds its earlier records and then the new one, when every field is clean. |

## Left out

- Running subprocesses (translate-shell, mpv / ffplay / mpg123, espeak-ng,
  git). Their printed output is a string parameter, and an exception is
  `None` or a `streamRaises` flag. Commands are modelled as the shell
  lines passed to `sh`.
- HTTP, `fetch_json`'s decoding and its timeout. The model starts from
  the parsed response (`Dictionary.Response`); the text of a non-HTTP
  exception is a parameter.
- JSON values other than a string, `null` or a missing member in the
  `audio`, `partOfSpeech`, `definition` and `example` fields.
  A non-object first entry, and `phonetics` / `meanings` /
  `definitions` values that are neither lists nor empty, raise in Python
  and take the error branch; the response datatype cannot express them.
  An empty object or string iterates zero times and acts like `[]`,
  which the model expresses as an empty sequence. Entries after the
  first are never read.
- Git sync: `ensure_repo`, `has_remote`, `git_commit_push`, `AUTO_PUSH`
  and the remote hint. These are external side effects whose errors are
  swallowed. In the multi-language script `git_commit_push` names a
  `tsv_path` that is not in its scope, so it always raises and swallows
  the error.
- `REPO_DIR`: files are identified by their names, and the repository
  directory is not modelled. Creating a missing directory or file is
  modelled as a missing file reading as empty.
- argparse mechanics and all printing. A missing term in the
  multi-language script is modelled only as exit status 2 with nothing
  written.
- langdetect_check.py, which only prints library results.
- Text.Lower: lowercases ASCII letters only. Python's `str.lower()` also
  maps other Unicode letters, which matters only for non-ASCII codes or
  names.
- Text.Basename: takes the text after the last `/`. It does not model
  `pathlib`'s handling of a trailing `/`, which `shutil.which` never
  returns.
