/** The decision logic of the program's main routine between its foreign
    calls: give up early when the transcription produced no segments, detect
    the source language on a short sample, pick a Marian translation model
    from a fixed table with a single fallback to English, translate the
    segments in batches of four and write the subtitle file.

    The foreign calls are parameters: `detect` is the language detector
    (`None` when it raises), `loads` says whether the model with a given id
    loads, and `engines` is the translator a loaded model provides. */
module Pipeline {
  import opened Wrappers
  import opened Strings
  import opened Segments
  import opened Batch
  import opened Srt

  /** The language codes the table knows. */
  const SupportedCodes: set<string> := {"en", "fr", "es", "de", "ru", "pt", "it", "nl"}

  /** The code tried when detection gives nothing usable or an unknown code. */
  const FallbackCode: string := "en"

  /** The batch size main hands to batch_translate_segments. */
  const TranslationBatchSize: int := 4

  /** The model id for translating from `code` into Arabic. */
  function ModelName(code: string): string
  {
    "Helsinki-NLP/opus-mt-" + code + "-ar"
  }

  /** The table of load_translator_for, written out entry by entry. */
  const ModelTable: map<string, string> := map[
    "en" := "Helsinki-NLP/opus-mt-en-ar",
    "fr" := "Helsinki-NLP/opus-mt-fr-ar",
    "es" := "Helsinki-NLP/opus-mt-es-ar",
    "de" := "Helsinki-NLP/opus-mt-de-ar",
    "ru" := "Helsinki-NLP/opus-mt-ru-ar",
    "pt" := "Helsinki-NLP/opus-mt-pt-ar",
    "it" := "Helsinki-NLP/opus-mt-it-ar",
    "nl" := "Helsinki-NLP/opus-mt-nl-ar"
  ]

  /** `mapping.get(code)`: a model exactly for the eight listed codes, and
      always the `opus-mt-<code>-ar` model. */
  function ModelFor(code: string): (m: Option<string>)
    ensures m.Some? <==> code in SupportedCodes
    ensures m.Some? ==> m.value == ModelName(code) && m.value != ""
  {
    if code in ModelTable then Some(ModelTable[code]) else None
  }

  /** What load_translator_for ends with. Building the pipeline is not inside
      a `try`, so a model that fails to load raises out of the function. */
  datatype Load =
    | NotFound                  // the code is not in the table: `None`
    | Loaded(model: string)     // `pipeline(...)` returned
    | LoadRaised(model: string) // `pipeline(...)` raised

  /** load_translator_for, with model loading as the oracle `loads`. */
  function LoadTranslatorFor(code: string, loads: string -> bool): (r: Load)
    ensures r.NotFound? <==> code !in SupportedCodes
    ensures r.Loaded? <==> code in SupportedCodes && loads(ModelName(code))
    ensures !r.NotFound? ==> r.model == ModelName(code)
  {
    match ModelFor(code)
    case None => NotFound
    case Some(model) => if loads(model) then Loaded(model) else LoadRaised(model)
  }

  /** `if detected:` - a detected code counts unless detection failed or
      gave the empty string. */
  predicate Usable(detected: Option<string>)
  {
    detected.Some? && detected.value != ""
  }

  /** How model selection ends. */
  datatype Choice =
    | Engine(model: string)  // a translator is available
    | NoEngine               // `raise SystemExit(...)`: no model at all
    | Raised(model: string)  // loading `model` raised; nothing catches it

  /** The outcome of selection together with the codes handed to
      load_translator_for, in order. */
  datatype Selection = Selection(tried: seq<string>, choice: Choice)

  function ChoiceOf(r: Load): Choice
  {
    match r
    case NotFound => NoEngine
    case Loaded(m) => Engine(m)
    case LoadRaised(m) => Raised(m)
  }

  /** The selection block of main: the detected code first when there is
      one, then, only if that found no model, English. */
  function Select(detected: Option<string>, loads: string -> bool): (s: Selection)
    ensures 1 <= |s.tried| <= 2
    ensures Usable(detected) ==> s.tried[0] == detected.value
    ensures !Usable(detected) ==> s.tried == [FallbackCode]
    ensures |s.tried| == 2 <==> Usable(detected) && detected.value !in SupportedCodes
    ensures |s.tried| == 2 ==> s.tried[1] == FallbackCode
  {
    if Usable(detected) && detected.value in SupportedCodes then
      Selection([detected.value], ChoiceOf(LoadTranslatorFor(detected.value, loads)))
    else
      var first := if Usable(detected) then [detected.value] else [];
      Selection(first + [FallbackCode], ChoiceOf(LoadTranslatorFor(FallbackCode, loads)))
  }

  /** No code is tried twice: in particular English is tried at most once,
      whether it was detected or is the fallback. */
  lemma SelectTriesEachCodeOnce(detected: Option<string>, loads: string -> bool)
    ensures var t := Select(detected, loads).tried;
      forall i, j :: 0 <= i < j < |t| ==> t[i] != t[j]
  {
    var t := Select(detected, loads).tried;
    if |t| == 2 {
      assert t[0] !in SupportedCodes;
      assert FallbackCode in SupportedCodes;
    }
  }

  /** The last code tried is always in the table: English is, so the
      `SystemExit` for a missing model can never be raised, and the run either
      gets the last code's model or stops because loading it raised. */
  lemma SelectEndsInTable(detected: Option<string>, loads: string -> bool)
    ensures var s := Select(detected, loads);
      var last := s.tried[|s.tried| - 1];
      && last in SupportedCodes
      && s.choice != NoEngine
      && (s.choice.Engine? <==> loads(ModelName(last)))
      && (!s.choice.Engine? ==> s.choice == Raised(ModelName(last)))
      && (s.choice.Engine? ==> s.choice.model == ModelName(last))
  {
    assert FallbackCode in SupportedCodes;
  }

  /** A detected code with a model that fails to load stops the run: no
      fallback to English is attempted. */
  lemma LoadFailureAborts(code: string, loads: string -> bool)
    requires code in SupportedCodes && !loads(ModelName(code))
    ensures Select(Some(code), loads) == Selection([code], Raised(ModelName(code)))
  {
    assert code != "";
  }

  /** An unknown detected code whose English fallback also fails to load:
      both codes are tried and the run stops while loading the English
      model. */
  lemma UnknownCodeFallbackFails(code: string, loads: string -> bool)
    requires code != "" && code !in SupportedCodes && !loads(ModelName(FallbackCode))
    ensures Select(Some(code), loads) == Selection([code, FallbackCode], Raised(ModelName(FallbackCode)))
  {
    assert FallbackCode in SupportedCodes;
  }

  /** The text handed to the language detector: the texts of at most the
      first three segments, with one space between each. */
  function LanguageSample(segs: seq<Segment>): (sample: string)
    ensures |segs| == 0 ==> sample == ""
    ensures |segs| == 1 ==> sample == segs[0].text
    ensures |segs| == 2 ==> sample == segs[0].text + " " + segs[1].text
    ensures |segs| >= 3 ==> sample == segs[0].text + " " + segs[1].text + " " + segs[2].text
  {
    var first := Texts(segs[..Min(3, |segs|)]);
    if |segs| >= 3 then
      assert first == [segs[0].text, segs[1].text, segs[2].text];
      JoinThree(segs[0].text, segs[1].text, segs[2].text, ' ');
      Join(first, ' ')
    else if |segs| == 2 then
      assert first == [segs[0].text, segs[1].text];
      assert first[1..] == [segs[1].text];
      assert Join(first[1..], ' ') == segs[1].text;
      Join(first, ' ')
    else
      Join(first, ' ')
  }

  /** The sample holds the first (up to three) texts, in order, separated by
      single spaces: splitting it on spaces gives them back when they hold no
      space themselves. Later segments play no part. */
  lemma LanguageSampleParts(segs: seq<Segment>)
    requires segs != []
    requires forall i :: 0 <= i < |segs| && i < 3 ==> Free(segs[i].text, ' ')
    ensures Split(LanguageSample(segs), ' ') == Texts(segs[..Min(3, |segs|)])
    ensures |Split(LanguageSample(segs), ' ')| == Min(3, |segs|)
  {
    var first := Texts(segs[..Min(3, |segs|)]);
    assert forall k :: 0 <= k < |first| ==> first[k] == segs[k].text;
    SplitJoin(first, ' ');
  }

  /** Segments beyond the third never reach the detector. */
  lemma LanguageSampleFirstThree(segs: seq<Segment>, more: seq<Segment>)
    requires |segs| >= 3
    ensures LanguageSample(segs + more) == LanguageSample(segs)
  {
    assert (segs + more)[..3] == segs[..3];
  }

  /** What load_translator_for would give if building the pipeline were
      guarded, as the fallback design needs: a model that fails to load
      counts as no model. */
  function LoadGuarded(code: string, loads: string -> bool): (m: Option<string>)
    ensures m.Some? <==> code in SupportedCodes && loads(ModelName(code))
    ensures m.Some? ==> m.value == ModelName(code)
  {
    match LoadTranslatorFor(code, loads)
    case Loaded(model) => Some(model)
    case _ => None
  }

  /** The selection block with the guarded loader: the detected code first
      when there is one, then English exactly once when that gave no
      translator, and the missing-model exit when English gives none
      either. */
  function SelectGuarded(detected: Option<string>, loads: string -> bool): (s: Selection)
    ensures 1 <= |s.tried| <= 2
    ensures Usable(detected) ==> s.tried[0] == detected.value
    ensures !Usable(detected) ==> s.tried == [FallbackCode]
    ensures |s.tried| == 2 <==> Usable(detected) && LoadGuarded(detected.value, loads).None?
    ensures |s.tried| == 2 ==> s.tried[1] == FallbackCode
    ensures !s.choice.Raised?
    ensures s.choice.Engine? <==> loads(ModelName(s.tried[|s.tried| - 1])) && s.tried[|s.tried| - 1] in SupportedCodes
    ensures s.choice.Engine? ==> s.choice.model == ModelName(s.tried[|s.tried| - 1])
  {
    var first := if Usable(detected) then LoadGuarded(detected.value, loads) else None;
    if first.Some? then
      Selection([detected.value], Engine(first.value))
    else
      var tried := (if Usable(detected) then [detected.value] else []) + [FallbackCode];
      match LoadGuarded(FallbackCode, loads)
      case Some(model) => Selection(tried, Engine(model))
      case None => Selection(tried, NoEngine)
  }

  /** With the guarded loader the run stops only when English fails too:
      selection has no translator exactly when neither the detected code's
      model nor the English model loads, and it never stops while loading. */
  lemma SelectGuardedFallsBack(detected: Option<string>, loads: string -> bool)
    ensures var s := SelectGuarded(detected, loads);
      && (s.choice == NoEngine <==>
            && !loads(ModelName(FallbackCode))
            && !(Usable(detected) && detected.value in SupportedCodes && loads(ModelName(detected.value))))
      && (s.choice.Engine? || s.choice == NoEngine)
  {
    assert FallbackCode in SupportedCodes;
  }

  /** The two selections agree except where the unguarded load raises: then
      the guarded one goes on to English. */
  lemma SelectGuardedAgrees(detected: Option<string>, loads: string -> bool)
    ensures !Select(detected, loads).choice.Raised? ==> SelectGuarded(detected, loads) == Select(detected, loads)
    ensures Select(detected, loads).choice.Raised? && Usable(detected) ==>
      SelectGuarded(detected, loads) == Selection([detected.value, FallbackCode],
        if loads(ModelName(FallbackCode)) then Engine(ModelName(FallbackCode)) else NoEngine)
  {
    assert FallbackCode in SupportedCodes;
  }

  /** English detected and its model failing: the guarded selection tries
      English a second time, as the fallback, and ends without a
      translator. */
  lemma EnglishFailureRetriedOnce(loads: string -> bool)
    requires !loads(ModelName(FallbackCode))
    ensures SelectGuarded(Some(FallbackCode), loads) == Selection([FallbackCode, FallbackCode], NoEngine)
  {
    assert FallbackCode in SupportedCodes;
  }

  /** French detected, only the English model installed: the code as
      written stops while loading the French model, the guarded selection
      translates with the English one. */
  lemma FrenchWithOnlyEnglishInstalled()
    ensures var loads := (m: string) => m == ModelName(FallbackCode);
      && Select(Some("fr"), loads) == Selection(["fr"], Raised("Helsinki-NLP/opus-mt-fr-ar"))
      && SelectGuarded(Some("fr"), loads) == Selection(["fr", "en"], Engine("Helsinki-NLP/opus-mt-en-ar"))
  {
    var loads := (m: string) => m == ModelName(FallbackCode);
    assert ModelName("fr") != ModelName(FallbackCode) by {
      assert ModelName("fr")[21] != ModelName(FallbackCode)[21];
    }
    assert !loads(ModelName("fr")) && loads(ModelName(FallbackCode));
  }

  /** How a run of main ends. */
  datatype Exit =
    | Finished(segments: seq<Segment>, srt: string) // the subtitle file was written
    | NoSegments                                    // `return` before detection
    | NoTranslator                                  // `raise SystemExit(...)`
    | Aborted(model: string)                        // loading `model` raised

  /** A run: what the detector was given (`None` if it was not called), the
      codes tried, and how the run ended. */
  datatype Run = Run(sample: Option<string>, tried: seq<string>, exit: Exit)

  /** The end of main once a model is chosen: stop the way selection
      stopped, or translate the segments in batches of four and write the
      subtitle file of the result. */
  function Conclude(segs: seq<Segment>, sample: string, sel: Selection, engines: string -> Translator): (r: Run)
    ensures r.sample == Some(sample) && r.tried == sel.tried
    ensures r.exit.NoTranslator? <==> sel.choice.NoEngine?
    ensures r.exit.Aborted? <==> sel.choice.Raised?
    ensures r.exit.Aborted? ==> r.exit.model == sel.choice.model
    ensures r.exit.Finished? <==> sel.choice.Engine?
    ensures r.exit.Finished? ==>
      && |r.exit.segments| == |segs|
      && r.exit.segments == BatchTranslateSegments(segs, engines(sel.choice.model), TranslationBatchSize).segments
      && r.exit.srt == WriteSrt(r.exit.segments)
  {
    match sel.choice
    case NoEngine => Run(Some(sample), sel.tried, NoTranslator)
    case Raised(m) => Run(Some(sample), sel.tried, Aborted(m))
    case Engine(m) =>
      var out := BatchTranslateSegments(segs, engines(m), TranslationBatchSize).segments;
      Run(Some(sample), sel.tried, Finished(out, WriteSrt(out)))
  }

  /** main between the transcription and the optional burn-in step. */
  function RunPipeline(segs: seq<Segment>, detect: string -> Option<string>, loads: string -> bool,
                       engines: string -> Translator): (r: Run)
    ensures segs == [] <==> r.exit.NoSegments?
    ensures segs == [] ==> r.sample.None? && r.tried == []
    ensures segs != [] ==> r.sample == Some(LanguageSample(segs)) && r.tried == Select(detect(LanguageSample(segs)), loads).tried
  {
    if segs == [] then Run(None, [], NoSegments)
    else
      var sample := LanguageSample(segs);
      Conclude(segs, sample, Select(detect(sample), loads), engines)
  }

  /** main with the guarded loader in place of load_translator_for. */
  function RunGuarded(segs: seq<Segment>, detect: string -> Option<string>, loads: string -> bool,
                      engines: string -> Translator): (r: Run)
    ensures segs == [] <==> r.exit.NoSegments?
    ensures segs != [] ==> r.sample == Some(LanguageSample(segs)) && r.tried == SelectGuarded(detect(LanguageSample(segs)), loads).tried
  {
    if segs == [] then Run(None, [], NoSegments)
    else
      var sample := LanguageSample(segs);
      Conclude(segs, sample, SelectGuarded(detect(sample), loads), engines)
  }

  /** With the guarded loader a non-empty run never stops while loading a
      model. It ends with the missing-model exit exactly when neither the
      detected code's model nor the English one loads, and otherwise writes
      the subtitle file. */
  lemma RunGuardedEnds(segs: seq<Segment>, detect: string -> Option<string>, loads: string -> bool,
                       engines: string -> Translator)
    requires segs != []
    ensures var detected := detect(LanguageSample(segs));
      var r := RunGuarded(segs, detect, loads, engines);
      && !r.exit.Aborted?
      && (r.exit.NoTranslator? <==>
            && !loads(ModelName(FallbackCode))
            && !(Usable(detected) && detected.value in SupportedCodes && loads(ModelName(detected.value))))
      && (r.exit.Finished? || r.exit.NoTranslator?)
  {
    SelectGuardedFallsBack(detect(LanguageSample(segs)), loads);
  }

  /** Every non-empty run ends with the model of the last code tried, which
      is always in the table: the missing-model exit never happens, and a run
      that does not finish stopped while loading that model. */
  lemma RunEndsInTable(segs: seq<Segment>, detect: string -> Option<string>, loads: string -> bool,
                       engines: string -> Translator)
    requires segs != []
    ensures var r := RunPipeline(segs, detect, loads, engines);
      var last := r.tried[|r.tried| - 1];
      && last in SupportedCodes
      && !r.exit.NoTranslator?
      && (r.exit.Finished? <==> loads(ModelName(last)))
      && (!r.exit.Finished? ==> r.exit == Aborted(ModelName(last)))
  {
    var sample := LanguageSample(segs);
    SelectEndsInTable(detect(sample), loads);
    assert RunPipeline(segs, detect, loads, engines) == Conclude(segs, sample, Select(detect(sample), loads), engines);
  }

  /** A run that gets a translator writes the segments it translated, in
      order, batch size four, as the subtitle file. */
  lemma RunFinished(segs: seq<Segment>, detect: string -> Option<string>, loads: string -> bool,
                    engines: string -> Translator)
    requires segs != []
    ensures var r := RunPipeline(segs, detect, loads, engines);
      var model := ModelName(r.tried[|r.tried| - 1]);
      r.exit.Finished? ==>
        && |r.exit.segments| == |segs|
        && r.exit.segments == BatchTranslateSegments(segs, engines(model), TranslationBatchSize).segments
        && r.exit.srt == WriteSrt(r.exit.segments)
  {
    var sample := LanguageSample(segs);
    var sel := Select(detect(sample), loads);
    SelectEndsInTable(detect(sample), loads);
    ConcludeWith(segs, sample, sel, engines, ModelName(sel.tried[|sel.tried| - 1]));
  }

  lemma ConcludeWith(segs: seq<Segment>, sample: string, sel: Selection, engines: string -> Translator, model: string)
    requires sel.choice.Engine? ==> sel.choice.model == model
    ensures var r := Conclude(segs, sample, sel, engines);
      r.exit.Finished? ==>
        && |r.exit.segments| == |segs|
        && r.exit.segments == BatchTranslateSegments(segs, engines(model), TranslationBatchSize).segments
        && r.exit.srt == WriteSrt(r.exit.segments)
  {
  }

  /** With models that all load and translators that hand each text back
      unchanged, the run writes the subtitle file of the transcription as
      it is. */
  lemma RunIdentity(segs: seq<Segment>, detect: string -> Option<string>, engines: string -> Translator)
    requires segs != []
    requires forall m :: Elementwise(engines(m), x => Text(x))
    ensures RunPipeline(segs, detect, _ => true, engines).exit == Finished(segs, WriteSrt(segs))
  {
    var s := Select(detect(LanguageSample(segs)), _ => true);
    SelectEndsInTable(detect(LanguageSample(segs)), _ => true);
    IdentityTranslatorKeepsSegments(segs, engines(s.choice.model), TranslationBatchSize);
  }
}
