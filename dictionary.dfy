/**
 * English definitions from a dictionaryapi.dev response
 * (`english_defs_from_dictionaryapi`, the same in lookup_to_anki.py and
 * lookup_to_anki_multi_lang.py). The model starts from the response as
 * `fetch_json` returned it, or from the exception it raised.
 */
module Dictionary {
  import opened Wrappers
  import opened Text

  /** A string-valued member of a JSON object: missing, `null`, or a string. */
  datatype Field = Absent | Null | Str(s: string)

  datatype Phonetic = Phonetic(audio: Field)
  datatype Sense = Sense(definition: Field, example: Field)
  datatype Meaning = Meaning(partOfSpeech: Field, definitions: seq<Sense>)
  /** A missing `phonetics`, `meanings` or `definitions` list is the empty sequence. */
  datatype Entry = Entry(phonetics: seq<Phonetic>, meanings: seq<Meaning>)

  /**
   * What fetching the entry gave: a JSON array of entries, some other JSON
   * value, an `HTTPError` with its status, or any other exception with its text.
   */
  datatype Response = Entries(entries: seq<Entry>) | NotAList | HttpError(code: nat) | Failure(message: string)

  /** Python truthiness of a field: a non-empty string. */
  predicate Truthy(f: Field)
  {
    f.Str? && f.s != ""
  }

  /** `m.get("partOfSpeech") or ""`. */
  function PartLabel(f: Field): (part: string)
  {
    if Truthy(f) then f.s else ""
  }

  /** `d.get("definition", "")` as an f-string shows it: a JSON `null` prints as `None`. */
  function DefText(f: Field): string
  {
    match f
    case Absent => ""
    case Null => "None"
    case Str(s) => s
  }

  /** The sentence that follows a definition with a truthy example. */
  function ExampleSuffix(ex: string): string
  {
    " (e.g. " + ex + ")"
  }

  /**
   * One definition as the tool writes it: `"[part] definition"` stripped,
   * then the example in parentheses when there is one. It always begins with
   * the bracketed part of speech, so it is never empty.
   */
  function FormatDef(part: string, d: Sense): (r: string)
    ensures "[" + part + "]" <= r
    ensures Truthy(d.example) ==> |r| >= |ExampleSuffix(d.example.s)| && r[|r| - |ExampleSuffix(d.example.s)|..] == ExampleSuffix(d.example.s)
    ensures !Truthy(d.example) ==> Trimmed(r)
    ensures var def := DefText(d.definition);
      r == "[" + part + "]" + (if AllSpace(def) then "" else " " + RStrip(def))
             + (if Truthy(d.example) then ExampleSuffix(d.example.s) else "")
  {
    var head := "[" + part + "] " + DefText(d.definition);
    var short := Strip(head);
    LabelSurvivesStrip(part, DefText(d.definition));
    StripTagged(part, DefText(d.definition));
    if Truthy(d.example) then short + ExampleSuffix(d.example.s) else short
  }

  /**
   * Stripping `"[part] text"` drops the space and the text when the text is
   * blank, and otherwise only the text's trailing whitespace.
   */
  lemma StripTagged(part: string, text: string)
    ensures Strip("[" + part + "] " + text) ==
      "[" + part + "]" + (if AllSpace(text) then "" else " " + RStrip(text))
  {
    if AllSpace(text) {
      StripTaggedBlank(part, text);
      assert "[" + part + "]" + "" == "[" + part + "]";
    } else {
      StripTaggedKept(part, text);
    }
  }

  /** A blank definition leaves the tag alone. */
  lemma StripTaggedBlank(part: string, text: string)
    requires AllSpace(text)
    ensures Strip("[" + part + "] " + text) == "[" + part + "]"
  {
    var tag := "[" + part + "]";
    var head := "[" + part + "] " + text;
    assert head == tag + " " + text;
    StripFromBracket(head);
    StripBlankText(tag, text);
  }

  /** A non-blank definition stays after the tag and a space, without its trailing whitespace. */
  lemma StripTaggedKept(part: string, text: string)
    requires !AllSpace(text)
    ensures Strip("[" + part + "] " + text) == "[" + part + "]" + " " + RStrip(text)
  {
    var tag := "[" + part + "]";
    var head := "[" + part + "] " + text;
    assert head == tag + " " + text;
    StripFromBracket(head);
    StripKeptText(tag, text);
  }

  /** Nothing to cut in front of a `[`: stripping only cuts at the end. */
  lemma StripFromBracket(h: string)
    requires h != [] && h[0] == '['
    ensures Strip(h) == RStrip(h)
  {
    assert LStrip(h) == h;
  }

  /** A non-blank text loses only its trailing whitespace. */
  lemma StripKeptText(tag: string, text: string)
    requires !AllSpace(text)
    ensures RStrip(tag + " " + text) == tag + " " + RStrip(text)
  {
    assert tag + " " + text == (tag + " ") + text;
    RStripKeepsHead(tag + " ", text);
  }

  /** A blank text and the space before it go, and the tag stays whole. */
  lemma StripBlankText(tag: string, text: string)
    requires AllSpace(text) && tag != [] && tag[|tag| - 1] == ']'
    ensures RStrip(tag + " " + text) == tag
  {
    var w := " " + text;
    assert AllSpace(w) by {
      forall i | 0 <= i < |w| ensures IsSpace(w[i]) {
        if i > 0 { assert w[i] == text[i - 1]; }
      }
    }
    assert tag + " " + text == tag + w;
    RStripTrailingSpace(tag, w);
    assert !IsSpace(tag[|tag| - 1]);
  }

  /** Stripping cannot reach into the tag: `[` is not whitespace, and `]` ends it. */
  lemma LabelSurvivesStrip(part: string, text: string)
    ensures "[" + part + "]" <= Strip("[" + part + "] " + text)
  {
    var tag := "[" + part + "]";
    var head := tag + " " + text;
    assert head == "[" + part + "] " + text;
    var l := LStrip(head);
    assert head[0] == '[';
    assert l == head;
    var r := RStrip(l);
    RStripSlice(l);
    assert head[|tag| - 1] == ']';
    assert r[..|tag|] == head[..|tag|] == tag;
  }

  /** The first truthy `audio` among the phonetics, in order; `None` exactly when there is none. */
  function FirstAudio(ps: seq<Phonetic>): (url: Option<string>)
    ensures url.None? <==> forall i :: 0 <= i < |ps| ==> !Truthy(ps[i].audio)
  {
    if ps == [] then None
    else if Truthy(ps[0].audio) then Some(ps[0].audio.s)
    else
      assert forall i :: 1 <= i < |ps| ==> ps[i] == ps[1..][i - 1];
      FirstAudio(ps[1..])
  }

  /** The first truthy audio, found at `i`, is the one chosen. */
  lemma {:induction false} FirstAudioAt(ps: seq<Phonetic>, i: nat)
    requires i < |ps| && Truthy(ps[i].audio)
    requires forall j :: 0 <= j < i ==> !Truthy(ps[j].audio)
    ensures FirstAudio(ps) == Some(ps[i].audio.s)
  {
    if i > 0 {
      assert ps[1..][i - 1] == ps[i];
      FirstAudioAt(ps[1..], i - 1);
    }
  }

  /** The strings for the definitions of one meaning, in order. */
  function MeaningDefs(m: Meaning): (r: seq<string>)
    ensures |r| == |m.definitions|
    ensures forall i {:trigger r[i]} :: 0 <= i < |r| ==> r[i] == FormatDef(PartLabel(m.partOfSpeech), m.definitions[i])
  {
    seq(|m.definitions|, i requires 0 <= i < |m.definitions| => FormatDef(PartLabel(m.partOfSpeech), m.definitions[i]))
  }

  /**
   * Definition `i` of a meaning, as written: the part of speech in brackets
   * (empty when `partOfSpeech` is missing, `null` or empty), the definition
   * text without its trailing whitespace, and the example when it is truthy.
   */
  lemma MeaningDefsLabelled(m: Meaning, i: nat)
    requires i < |m.definitions|
    ensures |MeaningDefs(m)| == |m.definitions|
    ensures var d, part := m.definitions[i], if m.partOfSpeech.Str? then m.partOfSpeech.s else "";
      var def := DefText(d.definition);
      MeaningDefs(m)[i] == "[" + part + "]" + (if AllSpace(def) then "" else " " + RStrip(def))
                           + (if Truthy(d.example) then ExampleSuffix(d.example.s) else "")
  {
  }

  /** The strings for all definitions, meaning by meaning. */
  function AllDefs(ms: seq<Meaning>): seq<string>
  {
    if ms == [] then [] else AllDefs(ms[..|ms| - 1]) + MeaningDefs(ms[|ms| - 1])
  }

  /** One more meaning adds its definitions at the end. */
  lemma AllDefsSnoc(ms: seq<Meaning>, mi: nat)
    requires mi < |ms|
    ensures AllDefs(ms[..mi + 1]) == AllDefs(ms[..mi]) + MeaningDefs(ms[mi])
  {
    assert ms[..mi + 1][..mi] == ms[..mi];
  }

  lemma PrefixSnoc(xs: seq<string>, i: nat)
    requires i < |xs|
    ensures xs[..i + 1] == xs[..i] + [xs[i]]
  {
  }

  /** How many definitions the meanings hold together. */
  function Count(ms: seq<Meaning>): nat
  {
    if ms == [] then 0 else Count(ms[..|ms| - 1]) + |ms[|ms| - 1].definitions|
  }

  /** What `english_defs_from_dictionaryapi` returns: the audio URL and the definition list. */
  function Gloss(resp: Response): (r: (Option<string>, seq<string>))
  {
    match resp
    case Entries(es) =>
      if es == [] then (None, []) else (FirstAudio(es[0].phonetics), AllDefs(es[0].meanings))
    case NotAList => (None, [])
    case HttpError(code) => (None, ["(dictapi HTTP " + NatToString(code) + ")"])
    case Failure(message) => (None, ["(dictapi error: " + message + ")"])
  }

  /** There is exactly one string per definition. */
  lemma {:induction false} DefsCount(ms: seq<Meaning>)
    ensures |AllDefs(ms)| == Count(ms)
  {
    if ms != [] {
      DefsCount(ms[..|ms| - 1]);
    }
  }

  /** Definition `di` of meaning `mi` sits after all definitions of the earlier meanings. */
  lemma {:induction false} DefsAt(ms: seq<Meaning>, mi: nat, di: nat)
    requires mi < |ms| && di < |ms[mi].definitions|
    ensures Count(ms[..mi]) + di < |AllDefs(ms)|
    ensures AllDefs(ms)[Count(ms[..mi]) + di] == MeaningDefs(ms[mi])[di]
  {
    var init := ms[..|ms| - 1];
    DefsCount(init);
    if mi == |ms| - 1 {
      assert ms[..mi] == init;
    } else {
      assert init[..mi] == ms[..mi];
      assert init[mi] == ms[mi];
      DefsAt(init, mi, di);
    }
  }

  /** Every definition string begins with `[`, so the `if short` test never drops one. */
  lemma EveryDefBracketed(ms: seq<Meaning>, k: nat)
    requires k < |AllDefs(ms)|
    ensures AllDefs(ms)[k] != "" && AllDefs(ms)[k][0] == '['
  {
    var mi, di := Locate(ms, k);
    DefsAt(ms, mi, di);
    var part := PartLabel(ms[mi].partOfSpeech);
    assert ("[" + part + "]")[0] == '[';
  }

  /** Every position of the definition list belongs to one definition. */
  lemma {:induction false} Locate(ms: seq<Meaning>, k: nat) returns (mi: nat, di: nat)
    requires k < |AllDefs(ms)|
    ensures mi < |ms| && di < |ms[mi].definitions| && k == Count(ms[..mi]) + di
  {
    var init := ms[..|ms| - 1];
    DefsCount(init);
    if k < |AllDefs(init)| {
      mi, di := Locate(init, k);
      assert init[..mi] == ms[..mi];
    } else {
      mi, di := |ms| - 1, k - Count(init);
      assert ms[..mi] == init;
    }
  }

  /** Anything but a non-empty list: no audio and no definitions. */
  lemma NoEntriesNoGloss(resp: Response)
    requires resp == NotAList || resp == Entries([])
    ensures Gloss(resp) == (None, [])
  {
  }

  /** An HTTP error leaves a single diagnostic naming the status, and no audio. */
  lemma HttpErrorDiagnostic(code: nat)
    ensures Gloss(HttpError(code)).0.None?
    ensures Gloss(HttpError(code)).1 == ["(dictapi HTTP " + NatToString(code) + ")"]
    ensures DecimalValue(Gloss(HttpError(code)).1[0][14..|Gloss(HttpError(code)).1[0]| - 1]) == code
  {
    var digits := NatToString(code);
    var msg := "(dictapi HTTP " + digits + ")";
    assert msg[14..|msg| - 1] == digits;
    NatToStringRoundTrip(code);
  }

  /**
   * A failed fetch gives no audio and a single diagnostic, which starts with
   * `(` and so cannot be mistaken for a definition, which starts with `[`.
   */
  lemma FailureIsOneDiagnostic(resp: Response)
    requires resp.HttpError? || resp.Failure?
    ensures Gloss(resp).0.None? && |Gloss(resp).1| == 1
    ensures Gloss(resp).1[0][..9] == "(dictapi " && Gloss(resp).1[0][0] != '['
  {
  }

  /**
   * `english_defs_from_dictionaryapi` after the fetch: the error branches, the
   * check for a non-empty list, then the two loops over the first entry.
   */
  method EnglishDefsFromDictionaryApi(resp: Response) returns (audioUrl: Option<string>, defs: seq<string>)
    ensures (audioUrl, defs) == Gloss(resp)
  {
    match resp
    case HttpError(code) =>
      return None, ["(dictapi HTTP " + NatToString(code) + ")"];
    case Failure(message) =>
      return None, ["(dictapi error: " + message + ")"];
    case NotAList =>
      return None, [];
    case Entries(es) =>
      if es == [] {
        return None, [];
      }
      audioUrl := FindAudio(es[0].phonetics);
      defs := CollectDefs(es[0].meanings);
  }

  /** The phonetics loop: stop at the first truthy `audio`. */
  method FindAudio(ps: seq<Phonetic>) returns (audioUrl: Option<string>)
    ensures audioUrl == FirstAudio(ps)
  {
    audioUrl := None;
    for i := 0 to |ps|
      invariant forall j :: 0 <= j < i ==> !Truthy(ps[j].audio)
    {
      var au := ps[i].audio;
      if Truthy(au) {
        audioUrl := Some(au.s);
        FirstAudioAt(ps, i);
        return;
      }
    }
  }

  /** The meanings loop and the definitions loop inside it. */
  method CollectDefs(ms: seq<Meaning>) returns (defs: seq<string>)
    ensures defs == AllDefs(ms)
  {
    defs := [];
    for mi := 0 to |ms|
      invariant defs == AllDefs(ms[..mi])
    {
      var m := ms[mi];
      var part := PartLabel(m.partOfSpeech);
      ghost var before := defs;
      for di := 0 to |m.definitions|
        invariant defs == before + MeaningDefs(m)[..di]
      {
        var short := ShortDef(part, m.definitions[di]);
        if short != "" {
          defs := defs + [short];
        }
        PrefixSnoc(MeaningDefs(m), di);
      }
      assert MeaningDefs(m)[..|m.definitions|] == MeaningDefs(m);
      AllDefsSnoc(ms, mi);
    }
    assert ms[..|ms|] == ms;
  }

  /** The body of the definitions loop: strip the tagged definition, then add the example. */
  method ShortDef(part: string, d: Sense) returns (short: string)
    ensures short == FormatDef(part, d) && short != ""
  {
    short := Strip("[" + part + "] " + DefText(d.definition));
    if Truthy(d.example) {
      short := short + ExampleSuffix(d.example.s);
    }
  }

  /** The definition list is one non-empty string per definition of the first entry. */
  lemma GlossShape(es: seq<Entry>)
    requires es != []
    ensures |Gloss(Entries(es)).1| == Count(es[0].meanings)
    ensures forall k :: 0 <= k < |Gloss(Entries(es)).1| ==> Gloss(Entries(es)).1[k] != ""
  {
    var ms := es[0].meanings;
    DefsCount(ms);
    forall k | 0 <= k < |AllDefs(ms)| ensures AllDefs(ms)[k] != "" {
      EveryDefBracketed(ms, k);
    }
  }
}
