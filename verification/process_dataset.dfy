/**
 * `process_dataset` (process_dataset.py): one detailed record per input row,
 * then one summary row per record.
 */
module ProcessDataset {
  import opened Wrappers
  import opened TextEnhancer

  /** One input row: the `text_id`, `category` and `content` columns. */
  datatype Row = Row(textId: int, category: string, content: string)

  /** One detailed record (the JSON output). */
  datatype Detail = Detail(
    textId: int,
    category: string,
    originalText: string,
    normalizedText: string,
    entities: seq<Entity>,
    polarity: real,
    subjectivity: real,
    transformerSentiment: string,
    transformerConfidence: real,
    tokens: seq<string>,
    posTags: seq<PosTag>)

  /** One summary row (the CSV output). */
  datatype Summary = Summary(
    textId: int,
    category: string,
    normalizedText: string,
    polarity: real,
    subjectivity: real,
    transformerSentiment: string,
    transformerConfidence: real,
    entityCount: nat,
    tokenCount: nat)

  /** Every row's analysis carries a sentiment. Where one does not, reading
      `analysis['sentiment']['textblob_sentiment']` from the empty mapping
      raises `KeyError` and the whole run fails. */
  predicate AllSentiments(m: Models, rows: seq<Row>) {
    forall i :: 0 <= i < |rows| ==> AnalyzeSentiment(m, rows[i].content).Some?
  }

  /** The record the first loop builds from `row` and its analysis `a`:
      identity and text columns from the row, the rest from `a`, the
      sentiment columns from its TextBlob and transformer parts. */
  function DetailOf(row: Row, a: Enhanced): (d: Detail)
    requires a.sentiment.Some?
    ensures d.textId == row.textId && d.category == row.category && d.originalText == row.content
    ensures d.normalizedText == a.normalizedText && d.entities == a.entities
    ensures d.polarity == a.sentiment.value.textblob.polarity
    ensures d.subjectivity == a.sentiment.value.textblob.subjectivity
    ensures d.transformerSentiment == a.sentiment.value.transformer.sentimentLabel
    ensures d.transformerConfidence == a.sentiment.value.transformer.score
    ensures d.tokens == a.tokens && d.posTags == a.posTags
  {
    var s := a.sentiment.value;
    Detail(
      row.textId, row.category, row.content, a.normalizedText, a.entities,
      s.textblob.polarity, s.textblob.subjectivity, s.transformer.sentimentLabel, s.transformer.score,
      a.tokens, a.posTags)
  }

  /** The records of the first loop over `rows`, built row by row with each
      row's content analysed by `analyse`; `None` once some analysis has no
      sentiment. */
  function Details(rows: seq<Row>, analyse: string -> Enhanced): Option<seq<Detail>>
    decreases |rows|
  {
    if rows == [] then Some([])
    else
      var row := rows[|rows| - 1];
      var a := analyse(row.content);
      match Details(rows[..|rows| - 1], analyse)
      case None => None
      case Some(acc) => if a.sentiment.None? then None else Some(acc + [DetailOf(row, a)])
  }

  /** Every row's analysis has a sentiment. */
  predicate Analysed(rows: seq<Row>, analyse: string -> Enhanced) {
    forall i :: 0 <= i < |rows| ==> analyse(rows[i].content).sentiment.Some?
  }

  /** The records exist exactly when every row's analysis has a sentiment,
      and then there is one per row, in order, each `DetailOf` its row and
      that row's analysis. */
  lemma {:induction false} DetailsPerRow(rows: seq<Row>, analyse: string -> Enhanced)
    ensures Details(rows, analyse).Some? <==> Analysed(rows, analyse)
    ensures Analysed(rows, analyse) ==> |Details(rows, analyse).value| == |rows|
    ensures Analysed(rows, analyse) ==> forall i :: 0 <= i < |rows| ==>
      Details(rows, analyse).value[i] == DetailOf(rows[i], analyse(rows[i].content))
    decreases |rows|
  {
    if rows != [] {
      var init, row := rows[..|rows| - 1], rows[|rows| - 1];
      DetailsPerRow(init, analyse);
      assert forall i :: 0 <= i < |init| ==> init[i] == rows[i];
      if Analysed(rows, analyse) {
        var acc := Details(init, analyse).value;
        var d := DetailOf(row, analyse(row.content));
        assert Details(rows, analyse).value == acc + [d];
        forall i | 0 <= i < |rows|
          ensures Details(rows, analyse).value[i] == DetailOf(rows[i], analyse(rows[i].content))
        {
          if i < |init| {
            assert (acc + [d])[i] == acc[i];
          }
        }
      }
    }
  }

  /** `enhance_text` with the models `m`, as a value. */
  ghost function Analyser(m: Models): string -> Enhanced {
    (t: string) => Enhancement(m, t)
  }

  /** `DetailsPerRow` for the analyses of `enhance_text`. */
  lemma DetailsOfModels(m: Models, rows: seq<Row>)
    ensures Details(rows, Analyser(m)).Some? <==> AllSentiments(m, rows)
    ensures AllSentiments(m, rows) ==> |Details(rows, Analyser(m)).value| == |rows|
    ensures AllSentiments(m, rows) ==> forall i :: 0 <= i < |rows| ==>
      Details(rows, Analyser(m)).value[i] == DetailOf(rows[i], Enhancement(m, rows[i].content))
  {
    DetailsPerRow(rows, Analyser(m));
    assert forall i :: 0 <= i < |rows| ==> Analyser(m)(rows[i].content) == Enhancement(m, rows[i].content);
  }

  /** The first loop: analyse each row's content in row order and record
      it; `None` when some analysis has no sentiment. */
  method BuildDetails(m: Models, rows: seq<Row>) returns (results: Option<seq<Detail>>)
    ensures results.Some? <==> AllSentiments(m, rows)
    ensures results.Some? ==> |results.value| == |rows|
    ensures results.Some? ==> forall i :: 0 <= i < |rows| ==>
      results.value[i] == DetailOf(rows[i], Enhancement(m, rows[i].content))
  {
    ghost var analyse := Analyser(m);
    var acc: seq<Detail> := [];
    for i := 0 to |rows|
      invariant Details(rows[..i], analyse) == Some(acc)
    {
      var analysis := EnhanceText(m, rows[i].content);
      assert rows[..i + 1][..i] == rows[..i];
      if analysis.sentiment.None? {
        return None;
      }
      acc := acc + [DetailOf(rows[i], analysis)];
    }
    assert rows[..|rows|] == rows;
    DetailsOfModels(m, rows);
    results := Some(acc);
  }

  /** Summary row `s` is record `d` with every scalar column copied and the
      entity and token lists replaced by their lengths. */
  predicate Summarises(s: Summary, d: Detail) {
    && s.textId == d.textId
    && s.category == d.category
    && s.normalizedText == d.normalizedText
    && s.polarity == d.polarity
    && s.subjectivity == d.subjectivity
    && s.transformerSentiment == d.transformerSentiment
    && s.transformerConfidence == d.transformerConfidence
    && s.entityCount == |d.entities|
    && s.tokenCount == |d.tokens|
  }

  /** The second loop: one summary row per record, in order. */
  method BuildSummaries(results: seq<Detail>) returns (csvResults: seq<Summary>)
    ensures |csvResults| == |results|
    ensures forall i :: 0 <= i < |results| ==> Summarises(csvResults[i], results[i])
  {
    csvResults := [];
    for i := 0 to |results|
      invariant |csvResults| == i
      invariant forall j :: 0 <= j < i ==> Summarises(csvResults[j], results[j])
    {
      var r := results[i];
      var csvResult := Summary(
        r.textId, r.category, r.normalizedText, r.polarity, r.subjectivity,
        r.transformerSentiment, r.transformerConfidence, |r.entities|, |r.tokens|);
      csvResults := csvResults + [csvResult];
    }
  }

  /** `process_dataset` without its file output: both tables, or `None` when
      the run raises. Every table has one row per input row, in order: the
      record is that row's `DetailOf` its analysis, the summary row
      summarises that record, and so the summary's columns are the row's
      identity, its normalised content, TextBlob's scores, the classifier's
      first label and score, and the numbers of entities and tokens. */
  method ProcessDataset(m: Models, rows: seq<Row>) returns (out: Option<(seq<Detail>, seq<Summary>)>)
    ensures out.Some? <==> AllSentiments(m, rows)
    ensures out.Some? ==> |out.value.0| == |rows| && |out.value.1| == |rows|
    ensures out.Some? ==> forall i :: 0 <= i < |rows| ==>
      && out.value.0[i] == DetailOf(rows[i], Enhancement(m, rows[i].content))
      && Summarises(out.value.1[i], out.value.0[i])
    ensures out.Some? ==> forall i :: 0 <= i < |rows| ==>
      && out.value.0[i].originalText == rows[i].content
      && out.value.0[i].tokens == Tokens(GetPosTags(m, rows[i].content))
      && out.value.1[i].textId == rows[i].textId
      && out.value.1[i].category == rows[i].category
      && out.value.1[i].normalizedText == NormalizeText(rows[i].content)
      && out.value.1[i].polarity == m.blob(rows[i].content).value.polarity
      && out.value.1[i].subjectivity == m.blob(rows[i].content).value.subjectivity
      && out.value.1[i].transformerSentiment == m.classifier(rows[i].content).value[0].sentimentLabel
      && out.value.1[i].transformerConfidence == m.classifier(rows[i].content).value[0].score
      && out.value.1[i].entityCount == |ExtractEntities(m, rows[i].content)|
      && out.value.1[i].tokenCount == |GetPosTags(m, rows[i].content)|
  {
    var results := BuildDetails(m, rows);
    if results.None? {
      return None;
    }
    var csvResults := BuildSummaries(results.value);
    out := Some((results.value, csvResults));
  }
}
