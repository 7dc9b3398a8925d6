/**
 * `TextAnalyzer` (text_analyzer.py): entities grouped by label, a
 * sign-to-label sentiment rule, and the combined analysis record.
 */
module TextAnalyzer {
  import opened TextPreprocessor
  import opened TextBlob

  /** One entity of the parsed document: its text and its label. */
  datatype EntitySpan = EntitySpan(text: string, entityLabel: string)

  /** What a `TextAnalyzer` holds: its preprocessor, the entity recogniser
      and the sentiment scorer. The last two are foreign models whose
      behaviour is not modelled. */
  datatype Analyzer = Analyzer(
    pre: Preprocessor,
    nlp: string -> seq<EntitySpan>,
    blob: string -> Scores)

  /** One entry of the label-to-texts dictionary. The dictionary is a
      sequence of entries in key insertion order, as a Python dict iterates. */
  datatype LabelGroup = LabelGroup(groupLabel: string, texts: seq<string>)

  /** The sentiment labels. */
  const Positive := "POSITIVE"
  const Negative := "NEGATIVE"
  const Neutral := "NEUTRAL"

  /** `label` and `score` of the overall sentiment. */
  datatype Overall = Overall(sentimentLabel: string, score: real)

  datatype SentimentReport = SentimentReport(textblob: Scores, overall: Overall)

  /** The record `analyze_text` returns. */
  datatype Analysis = Analysis(
    originalText: string,
    cleanedText: string,
    entities: seq<LabelGroup>,
    sentiment: SentimentReport)

  /** The preprocessing both analyses use: normalise and spell-check, no
      stop-word removal, no lemmatisation. */
  const AnalyzerFlags := Flags(true, false, false, true)

  /** Entity and sentiment inputs are the spell-corrected normalised text. */
  lemma AnalyzerInput(p: Preprocessor, text: string)
    ensures ProcessText(p, text, AnalyzerFlags) == p.correct(NormalizeText(text))
  {
  }

  // ---------------------------------------------------------------------
  // Grouping entities by label
  // ---------------------------------------------------------------------

  /** The texts of the entities labelled `l`, in document order. */
  function TextsLabelled(ents: seq<EntitySpan>, l: string): (texts: seq<string>)
    ensures |texts| <= |ents|
    ensures texts == [] <==> forall i :: 0 <= i < |ents| ==> ents[i].entityLabel != l
  {
    if ents == [] then []
    else
      var last := ents[|ents| - 1];
      TextsLabelled(ents[..|ents| - 1], l) + (if last.entityLabel == l then [last.text] else [])
  }

  /** The labels that occur, each once, in order of first occurrence. */
  function Labels(ents: seq<EntitySpan>): (ls: seq<string>)
    ensures forall l :: l in ls <==> exists i :: 0 <= i < |ents| && ents[i].entityLabel == l
    ensures forall i, j :: 0 <= i < j < |ls| ==> ls[i] != ls[j]
  {
    if ents == [] then []
    else
      var ls := Labels(ents[..|ents| - 1]);
      var l := ents[|ents| - 1].entityLabel;
      assert forall i :: 0 <= i < |ents| - 1 ==> ents[..|ents| - 1][i] == ents[i];
      if l in ls then ls else ls + [l]
  }

  /** The dictionary `extract_entities` builds: for every label that occurs,
      in order of first occurrence, the texts carrying it. */
  function Grouped(ents: seq<EntitySpan>): (groups: seq<LabelGroup>)
    ensures |groups| == |Labels(ents)|
    ensures forall j :: 0 <= j < |groups| ==>
      groups[j] == LabelGroup(Labels(ents)[j], TextsLabelled(ents, Labels(ents)[j]))
  {
    var ls := Labels(ents);
    seq(|ls|, j requires 0 <= j < |ls| => LabelGroup(ls[j], TextsLabelled(ents, ls[j])))
  }

  /** The position of the entry for `l`, or `|groups|` when there is none:
      the dictionary membership test of the loop. */
  function FindLabel(groups: seq<LabelGroup>, l: string): (k: nat)
    ensures k <= |groups|
    ensures k < |groups| ==> groups[k].groupLabel == l
    ensures k == |groups| ==> forall j :: 0 <= j < |groups| ==> groups[j].groupLabel != l
  {
    if groups == [] then 0
    else if groups[0].groupLabel == l then 0
    else 1 + FindLabel(groups[1..], l)
  }

  /** One more entity: its text is appended to the entry for its label,
      which is created at the end if it is missing. */
  lemma GroupedStep(ents: seq<EntitySpan>, e: EntitySpan)
    ensures var g := Grouped(ents);
      var k := FindLabel(g, e.entityLabel);
      Grouped(ents + [e]) ==
        if k < |g| then g[k := LabelGroup(e.entityLabel, g[k].texts + [e.text])]
        else g + [LabelGroup(e.entityLabel, [e.text])]
  {
    var all := ents + [e];
    assert all[..|all| - 1] == ents;
    var g, g' := Grouped(ents), Grouped(all);
    var ls := Labels(ents);
    var k := FindLabel(g, e.entityLabel);
    if k < |g| {
      assert Labels(all) == ls;
      var h := g[k := LabelGroup(e.entityLabel, g[k].texts + [e.text])];
      forall j | 0 <= j < |g'|
        ensures g'[j] == h[j]
      {
        if j != k {
          assert ls[j] != ls[k];
        }
      }
    } else {
      assert e.entityLabel !in ls;
      assert Labels(all) == ls + [e.entityLabel];
      var h := g + [LabelGroup(e.entityLabel, [e.text])];
      forall j | 0 <= j < |g'|
        ensures g'[j] == h[j]
      {
      }
    }
  }

  /** Number of texts over all entries. */
  function TotalTexts(groups: seq<LabelGroup>): nat {
    if groups == [] then 0 else |groups[0].texts| + TotalTexts(groups[1..])
  }

  lemma {:induction false} TotalTextsAppendOne(groups: seq<LabelGroup>, k: nat, t: string)
    requires k < |groups|
    ensures TotalTexts(groups[k := groups[k].(texts := groups[k].texts + [t])]) == TotalTexts(groups) + 1
    decreases |groups|
  {
    var h := groups[k := groups[k].(texts := groups[k].texts + [t])];
    if k > 0 {
      TotalTextsAppendOne(groups[1..], k - 1, t);
      assert h[1..] == groups[1..][k - 1 := groups[k].(texts := groups[k].texts + [t])];
    } else {
      assert h[1..] == groups[1..];
    }
  }

  lemma {:induction false} TotalTextsSnoc(groups: seq<LabelGroup>, g: LabelGroup)
    ensures TotalTexts(groups + [g]) == TotalTexts(groups) + |g.texts|
    decreases |groups|
  {
    if groups == [] {
      assert (groups + [g])[1..] == [];
    } else {
      TotalTextsSnoc(groups[1..], g);
      assert (groups + [g])[1..] == groups[1..] + [g];
    }
  }

  /** Every entity's text lands in exactly one entry. */
  lemma {:induction false} GroupedTotal(ents: seq<EntitySpan>)
    ensures TotalTexts(Grouped(ents)) == |ents|
    decreases |ents|
  {
    if ents != [] {
      var init, e := ents[..|ents| - 1], ents[|ents| - 1];
      assert ents == init + [e];
      GroupedTotal(init);
      GroupedStep(init, e);
      var g := Grouped(init);
      var k := FindLabel(g, e.entityLabel);
      if k < |g| {
        assert g[k].(texts := g[k].texts + [e.text]) == LabelGroup(e.entityLabel, g[k].texts + [e.text]);
        TotalTextsAppendOne(g, k, e.text);
      } else {
        TotalTextsSnoc(g, LabelGroup(e.entityLabel, [e.text]));
      }
    }
  }

  /** Some entity carries label `l`. */
  predicate Carries(ents: seq<EntitySpan>, l: string) {
    exists i :: 0 <= i < |ents| && ents[i].entityLabel == l
  }

  /** The dictionary has an entry for `l`. */
  predicate HasKey(groups: seq<LabelGroup>, l: string) {
    exists j :: 0 <= j < |groups| && groups[j].groupLabel == l
  }

  /** The dictionary's keys are exactly the labels that occur, each once,
      and no entry is empty. */
  lemma GroupedKeys(ents: seq<EntitySpan>)
    ensures forall l :: HasKey(Grouped(ents), l) <==> Carries(ents, l)
    ensures forall i, j :: 0 <= i < j < |Grouped(ents)| ==> Grouped(ents)[i].groupLabel != Grouped(ents)[j].groupLabel
    ensures forall j :: 0 <= j < |Grouped(ents)| ==> Grouped(ents)[j].texts != []
  {
    var g, ls := Grouped(ents), Labels(ents);
    forall l
      ensures HasKey(g, l) <==> l in ls
    {
      if l in ls {
        var j :| 0 <= j < |ls| && ls[j] == l;
        assert g[j].groupLabel == l;
      }
    }
    forall j | 0 <= j < |g|
      ensures g[j].texts != []
    {
      assert ls[j] in ls;
      var i :| 0 <= i < |ents| && ents[i].entityLabel == ls[j];
      assert ents[i].entityLabel == ls[j];
    }
  }

  /** The loop body of `extract_entities`, entry creation then append,
      takes the dictionary for `ents` to the one for `ents + [e]`. */
  lemma LoopStep(g: seq<LabelGroup>, ents: seq<EntitySpan>, e: EntitySpan)
    requires g == Grouped(ents)
    ensures var k := FindLabel(g, e.entityLabel);
      var g1 := if k == |g| then g + [LabelGroup(e.entityLabel, [])] else g;
      k < |g1| && g1[k := g1[k].(texts := g1[k].texts + [e.text])] == Grouped(ents + [e])
  {
    GroupedStep(ents, e);
    var k := FindLabel(g, e.entityLabel);
    if k == |g| {
      var g1 := g + [LabelGroup(e.entityLabel, [])];
      assert [] + [e.text] == [e.text];
      assert g1[k := g1[k].(texts := g1[k].texts + [e.text])] == g + [LabelGroup(e.entityLabel, [e.text])];
    }
  }

  /** The loop of `extract_entities`: fill the dictionary entity by entity,
      creating an entry the first time its label is seen. */
  method GroupByLabel(ents: seq<EntitySpan>) returns (groups: seq<LabelGroup>)
    ensures groups == Grouped(ents)
  {
    groups := [];
    for i := 0 to |ents|
      invariant groups == Grouped(ents[..i])
    {
      var e := ents[i];
      ghost var seen := ents[..i];
      assert ents[..i + 1] == seen + [e];
      LoopStep(groups, seen, e);
      var k := FindLabel(groups, e.entityLabel);
      if k == |groups| {
        groups := groups + [LabelGroup(e.entityLabel, [])];
      }
      groups := groups[k := groups[k].(texts := groups[k].texts + [e.text])];
    }
    assert ents[..|ents|] == ents;
  }

  /** `extract_entities`: preprocess, run the recogniser, and group what it
      finds by label. */
  method ExtractEntities(a: Analyzer, text: string) returns (groups: seq<LabelGroup>)
    ensures groups == Grouped(a.nlp(ProcessText(a.pre, text, AnalyzerFlags)))
  {
    var cleaned := ProcessText(a.pre, text, AnalyzerFlags);
    var ents := a.nlp(cleaned);
    groups := GroupByLabel(ents);
  }

  // ---------------------------------------------------------------------
  // Sentiment
  // ---------------------------------------------------------------------

  /** The sign of the polarity decides the label. */
  function LabelFor(polarity: real): (l: string)
    ensures l == Positive <==> polarity > 0.0
    ensures l == Negative <==> polarity < 0.0
    ensures l == Neutral <==> polarity == 0.0
  {
    if polarity > 0.0 then Positive
    else if polarity < 0.0 then Negative
    else Neutral
  }

  /** `abs`. */
  function Abs(x: real): real {
    if x < 0.0 then -x else x
  }

  /** `analyze_sentiment`: score the preprocessed text, label the polarity
      by its sign and report its magnitude as the score. */
  function AnalyzeSentiment(a: Analyzer, text: string): (r: SentimentReport)
    ensures r.textblob == a.blob(ProcessText(a.pre, text, AnalyzerFlags))
    ensures r.overall.sentimentLabel == LabelFor(r.textblob.polarity)
    ensures r.overall.score >= 0.0
    ensures r.overall.score == r.textblob.polarity || r.overall.score == -r.textblob.polarity
    ensures r.overall.score == 0.0 <==> r.overall.sentimentLabel == Neutral
  {
    var scores := a.blob(ProcessText(a.pre, text, AnalyzerFlags));
    SentimentReport(scores, Overall(LabelFor(scores.polarity), Abs(scores.polarity)))
  }

  // ---------------------------------------------------------------------
  // The combined analysis
  // ---------------------------------------------------------------------

  /** `analyze_text`: the input, its fully preprocessed form, and the two
      analyses, each of which preprocesses the original input itself. */
  method AnalyzeText(a: Analyzer, text: string) returns (result: Analysis)
    ensures result.originalText == text
    ensures result.cleanedText == ProcessText(a.pre, text, DefaultFlags)
    ensures result.entities == Grouped(a.nlp(a.pre.correct(NormalizeText(text))))
    ensures result.sentiment == AnalyzeSentiment(a, text)
  {
    var cleaned := ProcessText(a.pre, text, DefaultFlags);
    var entities := ExtractEntities(a, text);
    AnalyzerInput(a.pre, text);
    result := Analysis(text, cleaned, entities, AnalyzeSentiment(a, text));
  }
}
