/** Batched translation (batch_translate_segments): the segment texts are cut
    into consecutive slices of `batchSize`, each slice goes to the translator
    in one call, every element the translator returns is normalised to a
    string, and the strings are written back into the segments by position,
    as `zip` pairs them. */
module Batch {
  import opened Wrappers
  import opened Strings
  import opened Segments

  /** One element of a translator's answer. `shown` stands for Python's
      `str(o)` of a value whose printing the model does not compute. */
  datatype RawResult =
    | Record(fields: map<string, string>, shown: string)
    | Text(s: string)
    | Other(shown: string)

  /** A translation engine: a batch of texts in, a list of results out. It
      may return any number of results. */
  type Translator = seq<string> -> seq<RawResult>

  const TranslationKey: string := "translation_text"

  /** Python's `str(o)`: a string prints as itself. */
  function Shown(o: RawResult): string
  {
    match o
    case Record(_, shown) => shown
    case Text(s) => s
    case Other(shown) => shown
  }

  /** The normalisation of one result: a record's `translation_text` when it
      has one, and otherwise the plain string conversion. */
  function Normalise(o: RawResult): (t: string)
    ensures o.Record? && TranslationKey in o.fields ==> t == o.fields[TranslationKey]
    ensures !(o.Record? && TranslationKey in o.fields) ==> t == Shown(o)
  {
    match o
    case Record(fields, shown) => if TranslationKey in fields then fields[TranslationKey] else shown
    case Text(s) => s
    case Other(shown) => shown
  }

  /** The inner loop over one call's answer: one string per returned
      element, in the order returned. */
  function NormaliseAll(out: seq<RawResult>): (ts: seq<string>)
    ensures |ts| == |out|
    ensures forall j :: 0 <= j < |out| ==> ts[j] == Normalise(out[j])
  {
    if out == [] then [] else [Normalise(out[0])] + NormaliseAll(out[1..])
  }

  /** The slices the outer loop hands to the translator, one per step of
      `b` through the texts: consecutive slices that put the texts back
      together, all of length `b` except a shorter last one. */
  function Batches<T>(xs: seq<T>, b: nat): (bs: seq<seq<T>>)
    requires b >= 1
    ensures Concat(bs) == xs
    ensures forall k :: 0 <= k < |bs| ==> 1 <= |bs[k]| <= b
    ensures forall k :: 0 <= k < |bs| - 1 ==> |bs[k]| == b
    decreases |xs|
  {
    if xs == [] then []
    else
      var n := Min(b, |xs|);
      assert xs[..n] + xs[n..] == xs;
      [xs[..n]] + Batches(xs[n..], b)
  }

  /** Where batch `k` starts among the texts. */
  function Start<T>(bs: seq<seq<T>>, k: nat): nat
    requires k <= |bs|
  {
    |Concat(bs[..k])|
  }

  lemma MulStep(k: nat, b: nat)
    ensures k * b + b == (k + 1) * b
  {
  }

  lemma {:induction false} ConcatPrefixStep<T>(bs: seq<seq<T>>, k: nat)
    requires k < |bs|
    ensures Concat(bs[..k + 1]) == Concat(bs[..k]) + bs[k]
  {
    assert bs[..k + 1] == bs[..k] + [bs[k]];
    ConcatAppend(bs[..k], [bs[k]]);
    assert Concat([bs[k]]) == bs[k] + Concat([bs[k]][1..]);
  }

  /** Every batch but the last holds `b` texts, so batch `k` starts at `k * b`. */
  lemma {:induction false} BatchStart<T>(xs: seq<T>, b: nat, k: nat)
    requires b >= 1 && k <= |Batches(xs, b)|
    ensures Start(Batches(xs, b), k) == k * b || (k == |Batches(xs, b)| && Start(Batches(xs, b), k) == |xs|)
    ensures k < |Batches(xs, b)| ==> Start(Batches(xs, b), k) == k * b
  {
    var bs := Batches(xs, b);
    if k == 0 {
      assert bs[..0] == [];
    } else {
      BatchStart(xs, b, k - 1);
      ConcatPrefixStep(bs, k - 1);
      MulStep(k - 1, b);
      if k == |bs| {
        assert bs[..k] == bs;
      }
    }
  }

  lemma {:induction false} ConcatSlice<T>(bs: seq<seq<T>>, k: nat)
    requires k < |bs|
    ensures Start(bs, k) + |bs[k]| <= |Concat(bs)|
    ensures bs[k] == Concat(bs)[Start(bs, k) .. Start(bs, k) + |bs[k]|]
  {
    assert bs == bs[..k] + [bs[k]] + bs[k + 1..];
    ConcatAppend(bs[..k] + [bs[k]], bs[k + 1..]);
    ConcatPrefixStep(bs, k);
    assert bs[..k + 1] == bs[..k] + [bs[k]];
  }

  /** There are `ceil(|xs| / b)` batches, hence as many translator calls:
      `b` times their number reaches `|xs|`, and one batch fewer would not. */
  lemma BatchCount<T>(xs: seq<T>, b: nat)
    requires b >= 1
    ensures |xs| <= |Batches(xs, b)| * b
    ensures |Batches(xs, b)| == 0 || (|Batches(xs, b)| - 1) * b < |xs|
  {
    var bs := Batches(xs, b);
    BatchStart(xs, b, |bs|);
    assert bs[..|bs|] == bs;
    if |bs| > 0 {
      BatchStart(xs, b, |bs| - 1);
      ConcatPrefixStep(bs, |bs| - 1);
      MulStep(|bs| - 1, b);
    }
  }

  /** Batch `k` is the slice `xs[k*b : k*b + b]`, clipped at the end. */
  lemma BatchesAreSlices<T>(xs: seq<T>, b: nat, k: nat)
    requires b >= 1 && k < |Batches(xs, b)|
    ensures k * b < |xs|
    ensures Batches(xs, b)[k] == xs[k * b .. Min(k * b + b, |xs|)]
  {
    var bs := Batches(xs, b);
    BatchStart(xs, b, k);
    ConcatSlice(bs, k);
    if k < |bs| - 1 {
      BatchStart(xs, b, k + 1);
      ConcatSlice(bs, k + 1);
    } else {
      BatchStart(xs, b, |bs|);
      ConcatPrefixStep(bs, k);
      assert bs[..k + 1] == bs;
    }
  }

  /** Every string the translator returns, normalised, batch after batch. */
  function Translations(bs: seq<seq<string>>, tr: Translator): seq<string>
  {
    if bs == [] then [] else NormaliseAll(tr(bs[0])) + Translations(bs[1..], tr)
  }

  /** The `translated` list of batch_translate_segments. */
  function TranslateTexts(texts: seq<string>, b: nat, tr: Translator): (ts: seq<string>)
    requires b >= 1
    ensures OnePerInput(Batches(texts, b), tr) ==> |ts| == |texts|
  {
    TranslationsLengthWhen(Batches(texts, b), tr);
    Translations(Batches(texts, b), tr)
  }

  /** The translator gives one result per text of every batch it is handed. */
  ghost predicate OnePerInput(bs: seq<seq<string>>, tr: Translator)
  {
    forall k :: 0 <= k < |bs| ==> |tr(bs[k])| == |bs[k]|
  }

  lemma TranslateTextsStep(texts: seq<string>, b: nat, tr: Translator)
    requires b >= 1 && texts != []
    ensures var n := Min(b, |texts|);
      && Batches(texts, b) == [texts[..n]] + Batches(texts[n..], b)
      && TranslateTexts(texts, b, tr) == NormaliseAll(tr(texts[..n])) + TranslateTexts(texts[n..], b, tr)
  {
    var n := Min(b, |texts|);
    assert ([texts[..n]] + Batches(texts[n..], b))[1..] == Batches(texts[n..], b);
  }

  lemma {:induction false} TranslationsAppend(a: seq<seq<string>>, c: seq<seq<string>>, tr: Translator)
    ensures Translations(a + c, tr) == Translations(a, tr) + Translations(c, tr)
  {
    if a == [] {
      assert a + c == c;
    } else {
      assert (a + c)[1..] == a[1..] + c;
      TranslationsAppend(a[1..], c, tr);
    }
  }

  /** The translator never returns more results than it was handed texts. */
  ghost predicate AtMostOnePerInput(bs: seq<seq<string>>, tr: Translator)
  {
    forall k :: 0 <= k < |bs| ==> |tr(bs[k])| <= |bs[k]|
  }

  lemma {:induction false} TranslationsAtMost(bs: seq<seq<string>>, tr: Translator)
    requires AtMostOnePerInput(bs, tr)
    ensures |Translations(bs, tr)| <= |Concat(bs)|
  {
    if bs != [] {
      assert AtMostOnePerInput(bs[1..], tr) by {
        forall k | 0 <= k < |bs[1..]| ensures |tr(bs[1..][k])| <= |bs[1..][k]| {
          assert bs[1..][k] == bs[k + 1];
        }
      }
      TranslationsAtMost(bs[1..], tr);
    }
  }

  lemma TranslationsLengthWhen(bs: seq<seq<string>>, tr: Translator)
    ensures OnePerInput(bs, tr) ==> |Translations(bs, tr)| == |Concat(bs)|
  {
    if OnePerInput(bs, tr) {
      TranslationsLength(bs, tr);
    }
  }

  lemma {:induction false} TranslationsLength(bs: seq<seq<string>>, tr: Translator)
    requires OnePerInput(bs, tr)
    ensures |Translations(bs, tr)| == |Concat(bs)|
  {
    if bs != [] {
      assert OnePerInput(bs[1..], tr) by {
        forall k | 0 <= k < |bs[1..]| ensures |tr(bs[1..][k])| == |bs[1..][k]| {
          assert bs[1..][k] == bs[k + 1];
        }
      }
      TranslationsLength(bs[1..], tr);
    }
  }

  lemma TranslationsSplit(bs: seq<seq<string>>, tr: Translator, k: nat)
    requires OnePerInput(bs, tr) && k < |bs|
    ensures Translations(bs, tr) == Translations(bs[..k], tr) + NormaliseAll(tr(bs[k])) + Translations(bs[k + 1..], tr)
    ensures |Translations(bs[..k], tr)| == Start(bs, k)
  {
    assert bs == bs[..k] + [bs[k]] + bs[k + 1..];
    TranslationsAppend(bs[..k] + [bs[k]], bs[k + 1..], tr);
    TranslationsAppend(bs[..k], [bs[k]], tr);
    assert Translations([bs[k]], tr) == NormaliseAll(tr(bs[k])) + Translations([], tr);
    assert OnePerInput(bs[..k], tr) by {
      forall i | 0 <= i < k ensures |tr(bs[..k][i])| == |bs[..k][i]| {
        assert bs[..k][i] == bs[i];
      }
    }
    TranslationsLength(bs[..k], tr);
  }

  /** With one result per input, the result for element `j` of batch `k` lands
      at `Start(bs, k) + j`: the very position that element held among the
      texts. */
  lemma TranslationAt(bs: seq<seq<string>>, tr: Translator, k: nat, j: nat)
    requires OnePerInput(bs, tr) && k < |bs| && j < |bs[k]|
    ensures Start(bs, k) + j < |Concat(bs)| == |Translations(bs, tr)|
    ensures Concat(bs)[Start(bs, k) + j] == bs[k][j]
    ensures Translations(bs, tr)[Start(bs, k) + j] == Normalise(tr(bs[k])[j])
  {
    TranslationsLength(bs, tr);
    ConcatSlice(bs, k);
    TranslationsSplit(bs, tr, k);
    var pre := Translations(bs[..k], tr);
    var mid := NormaliseAll(tr(bs[k]));
    assert j < |mid|;
    IndexMiddle(pre, mid, Translations(bs[k + 1..], tr), j);
  }

  lemma IndexMiddle<T>(a: seq<T>, m: seq<T>, c: seq<T>, j: nat)
    requires j < |m|
    ensures (a + m + c)[|a| + j] == m[j]
  {
  }

  /** batch_translate_segments with one result per input: element `j` of
      batch `k` is the text at `k * b + j`, and its translation, at the same
      position, is what the call on batch `k` returned at `j`. */
  lemma TranslateTextsAligned(texts: seq<string>, b: nat, tr: Translator, k: nat, j: nat)
    requires b >= 1
    requires OnePerInput(Batches(texts, b), tr)
    requires k < |Batches(texts, b)| && j < |Batches(texts, b)[k]|
    ensures |TranslateTexts(texts, b, tr)| == |texts|
    ensures k * b + j < |texts| && texts[k * b + j] == Batches(texts, b)[k][j]
    ensures TranslateTexts(texts, b, tr)[k * b + j] == Normalise(tr(Batches(texts, b)[k])[j])
  {
    var bs := Batches(texts, b);
    BatchStart(texts, b, k);
    TranslationAt(bs, tr, k, j);
  }

  /** The translator works text by text: each text's result depends on that
      text alone. */
  ghost predicate Elementwise(tr: Translator, f: string -> RawResult)
  {
    forall xs: seq<string> {:trigger tr(xs)} :: |tr(xs)| == |xs| && forall j :: 0 <= j < |xs| ==> tr(xs)[j] == f(xs[j])
  }

  /** For a text-by-text translator the translations are the texts' own
      results, position by position, whatever the batch size. */
  lemma {:induction false} ElementwiseTranslation(texts: seq<string>, b: nat, tr: Translator, f: string -> RawResult)
    requires b >= 1 && Elementwise(tr, f)
    ensures |TranslateTexts(texts, b, tr)| == |texts|
    ensures forall i :: 0 <= i < |texts| ==> TranslateTexts(texts, b, tr)[i] == Normalise(f(texts[i]))
    decreases |texts|
  {
    if texts != [] {
      var n := Min(b, |texts|);
      TranslateTextsStep(texts, b, tr);
      var batch := texts[..n];
      assert |tr(batch)| == |batch|;
      ElementwiseTranslation(texts[n..], b, tr, f);
    }
  }

  /** The batch size affects throughput only: two batch sizes give the same
      translations for a text-by-text translator. */
  lemma BatchSizeIndependent(texts: seq<string>, b1: nat, b2: nat, tr: Translator, f: string -> RawResult)
    requires b1 >= 1 && b2 >= 1 && Elementwise(tr, f)
    ensures TranslateTexts(texts, b1, tr) == TranslateTexts(texts, b2, tr)
  {
    ElementwiseTranslation(texts, b1, tr, f);
    ElementwiseTranslation(texts, b2, tr, f);
  }

  /** The closing `zip` loop: the segments and the translations are paired
      up by position until either list runs out, so the first
      `min(|segs|, |translated|)` segments take their translation, the rest
      keep their text, and no segment is added, dropped or retimed. */
  function Attach(segs: seq<Segment>, translated: seq<string>): (r: seq<Segment>)
    ensures |r| == |segs|
    ensures forall i :: 0 <= i < |segs| ==> r[i].start == segs[i].start && r[i].end == segs[i].end
    ensures forall i :: 0 <= i < |segs| && i < |translated| ==> r[i].text == translated[i]
    ensures forall i :: |translated| <= i < |segs| ==> r[i] == segs[i]
  {
    if segs == [] || translated == [] then segs
    else [segs[0].(text := translated[0])] + Attach(segs[1..], translated[1..])
  }

  /** How batch_translate_segments ends. */
  datatype Outcome =
    | Translated(segments: seq<Segment>)
    | ZeroBatchSize    // `range()` refuses a zero step with ValueError

  /** batch_translate_segments. A negative batch size makes `range` empty, so
      nothing is translated. */
  function BatchTranslateSegments(segs: seq<Segment>, tr: Translator, batchSize: int): (r: Outcome)
    ensures r.ZeroBatchSize? <==> batchSize == 0
    ensures r.Translated? ==> |r.segments| == |segs|
    ensures r.Translated? ==> forall i :: 0 <= i < |segs| ==>
      r.segments[i].start == segs[i].start && r.segments[i].end == segs[i].end
    ensures batchSize < 0 ==> r == Translated(segs)
  {
    if batchSize == 0 then ZeroBatchSize
    else if batchSize < 0 then Translated(segs)
    else Translated(Attach(segs, TranslateTexts(Texts(segs), batchSize, tr)))
  }

  /** When every call answers one result per text, the segment at position
      `k * b + j` gets the normalised result at `j` of the call on batch `k`,
      the batch holding its own text at `j`. */
  lemma SegmentsTranslatedByPosition(segs: seq<Segment>, tr: Translator, b: nat, k: nat, j: nat)
    requires b >= 1 && OnePerInput(Batches(Texts(segs), b), tr)
    requires k < |Batches(Texts(segs), b)| && j < |Batches(Texts(segs), b)[k]|
    ensures k * b + j < |segs| && Batches(Texts(segs), b)[k][j] == segs[k * b + j].text
    ensures var r := BatchTranslateSegments(segs, tr, b);
      r.Translated? &&
      r.segments[k * b + j] == segs[k * b + j].(text := Normalise(tr(Batches(Texts(segs), b)[k])[j]))
  {
    var texts := Texts(segs);
    TranslateTextsAligned(texts, b, tr, k, j);
    NatProduct(k, b);
    var i: nat := k * b + j;
    TextOf(segs, i, Batches(texts, b)[k][j]);
    AttachAt(segs, TranslateTexts(texts, b, tr), BatchTranslateSegments(segs, tr, b), i,
             Normalise(tr(Batches(texts, b)[k])[j]));
  }

  lemma NatProduct(k: nat, b: nat)
    ensures 0 <= k * b
  {
  }

  lemma TextOf(segs: seq<Segment>, i: nat, x: string)
    requires i < |segs| && Texts(segs)[i] == x
    ensures x == segs[i].text
  {
  }

  lemma AttachAt(segs: seq<Segment>, translated: seq<string>, r: Outcome, i: nat, t: string)
    requires r == Translated(Attach(segs, translated))
    requires i < |segs| && i < |translated| && translated[i] == t
    ensures r.Translated? && r.segments[i] == segs[i].(text := t)
  {
  }

  /** A translator that returns fewer results than texts leaves fewer
      translations than segments; `zip` stops at the shorter list, so every
      segment past the last translation keeps its original text. */
  lemma FewerResultsKeepTail(segs: seq<Segment>, tr: Translator, b: nat)
    requires b >= 1 && AtMostOnePerInput(Batches(Texts(segs), b), tr)
    ensures var n := |TranslateTexts(Texts(segs), b, tr)|;
      && n <= |segs|
      && forall i :: n <= i < |segs| ==> BatchTranslateSegments(segs, tr, b).segments[i] == segs[i]
  {
    TranslationsAtMost(Batches(Texts(segs), b), tr);
  }

  /** With a text-by-text translator every segment gets the translation of its
      own text, whatever the batch size. */
  lemma ElementwiseSegments(segs: seq<Segment>, tr: Translator, f: string -> RawResult, b: nat)
    requires b >= 1 && Elementwise(tr, f)
    ensures var r := BatchTranslateSegments(segs, tr, b);
      r.Translated? && forall i :: 0 <= i < |segs| ==>
        r.segments[i] == Segment(segs[i].start, segs[i].end, Normalise(f(segs[i].text)))
  {
    ElementwiseTranslation(Texts(segs), b, tr, f);
  }

  /** A translator that hands every text back as a plain string leaves the
      segments exactly as they were. */
  lemma IdentityTranslatorKeepsSegments(segs: seq<Segment>, tr: Translator, b: nat)
    requires b >= 1 && Elementwise(tr, x => Text(x))
    ensures BatchTranslateSegments(segs, tr, b) == Translated(segs)
  {
    ElementwiseSegments(segs, tr, x => Text(x), b);
  }

  /** The `range` loop of batch_translate_segments: the batches in order,
      each returned element appended after normalisation. The loop counter
      `i` runs through the batch starts; `k` counts the batches done. */
  method TranslateTextsLoop(texts: seq<string>, tr: Translator, b: nat) returns (translated: seq<string>)
    requires b >= 1
    ensures translated == TranslateTexts(texts, b, tr)
  {
    ghost var bs := Batches(texts, b);
    ghost var k: nat := 0;
    translated := [];
    var i := 0;
    while i < |texts|
      invariant k <= |bs|
      invariant i == Start(bs, k)
      invariant translated == Translations(bs[..k], tr)
      decreases |texts| - i
    {
      BatchPending(bs, k, i);
      BatchFrom(texts, b, k, i);
      var hi := Min(i + b, |texts|);
      var out := tr(texts[i..hi]);
      var normalised := NormaliseLoop(out);
      TranslationsPrefixStep(bs, k, tr);
      ConcatPrefixStep(bs, k);
      translated := translated + normalised;
      i, k := hi, k + 1;
    }
    BatchPending(bs, k, i);
    assert bs[..k] == bs;
  }

  /** The batch starting at text `i` is the slice `texts[i:i+b]`. */
  lemma BatchFrom(texts: seq<string>, b: nat, k: nat, i: int)
    requires b >= 1 && k < |Batches(texts, b)| && i == Start(Batches(texts, b), k)
    ensures 0 <= i < Min(i + b, |texts|)
    ensures Batches(texts, b)[k] == texts[i..Min(i + b, |texts|)]
  {
    BatchesAreSlices(texts, b, k);
    BatchStart(texts, b, k);
  }

  /** While the loop counter is short of the end, a batch is left to do. */
  lemma BatchPending(bs: seq<seq<string>>, k: nat, i: int)
    requires k <= |bs| && i == Start(bs, k)
    requires forall j :: 0 <= j < |bs| ==> 1 <= |bs[j]|
    ensures k < |bs| <==> i < |Concat(bs)|
  {
    if k < |bs| {
      ConcatSlice(bs, k);
    } else {
      assert bs[..k] == bs;
    }
  }

  lemma TranslationsPrefixStep(bs: seq<seq<string>>, k: nat, tr: Translator)
    requires k < |bs|
    ensures Translations(bs[..k + 1], tr) == Translations(bs[..k], tr) + NormaliseAll(tr(bs[k]))
  {
    assert bs[..k + 1] == bs[..k] + [bs[k]];
    TranslationsAppend(bs[..k], [bs[k]], tr);
    assert Translations([bs[k]], tr) == NormaliseAll(tr(bs[k])) + Translations([], tr);
  }

  /** The inner loop, appending one normalised element at a time. */
  method NormaliseLoop(out: seq<RawResult>) returns (ts: seq<string>)
    ensures ts == NormaliseAll(out)
  {
    ts := [];
    var j := 0;
    while j < |out|
      invariant 0 <= j <= |out|
      invariant ts + NormaliseAll(out[j..]) == NormaliseAll(out)
    {
      NormaliseAllFrom(out, j);
      ts := ts + [Normalise(out[j])];
      j := j + 1;
    }
    assert out[j..] == [];
  }

  lemma NormaliseAllFrom(out: seq<RawResult>, j: nat)
    requires j < |out|
    ensures NormaliseAll(out[j..]) == [Normalise(out[j])] + NormaliseAll(out[j + 1..])
  {
    assert out[j..][1..] == out[j + 1..];
  }

  /** The `zip` loop: segment `k` takes translation `k` while both last. */
  method AttachLoop(segs: seq<Segment>, translated: seq<string>) returns (result: seq<Segment>)
    ensures result == Attach(segs, translated)
  {
    result := segs;
    var k := 0;
    while k < |segs| && k < |translated|
      invariant 0 <= k <= |segs|
      invariant |result| == |segs|
      invariant forall i :: 0 <= i < k ==> result[i] == Attach(segs, translated)[i]
      invariant forall i :: k <= i < |segs| ==> result[i] == segs[i]
    {
      result := result[k := result[k].(text := translated[k])];
      k := k + 1;
    }
  }

  /** batch_translate_segments, step by step. */
  method BatchTranslateLoop(segs: seq<Segment>, tr: Translator, batchSize: int) returns (r: Outcome)
    ensures r == BatchTranslateSegments(segs, tr, batchSize)
  {
    if batchSize == 0 {
      return ZeroBatchSize;
    }
    var translated: seq<string> := [];
    if batchSize > 0 {
      translated := TranslateTextsLoop(Texts(segs), tr, batchSize);
    }
    var result := AttachLoop(segs, translated);
    return Translated(result);
  }
}
