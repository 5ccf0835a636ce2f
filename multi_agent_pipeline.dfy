/** `MultiAgentPipeline`: the wiring of the three agents, and the plain-text summary
    report of their result. */
module Pipeline {
  import opened Text
  import opened Entities
  import NerAgent
  import AnomalyAgent

  /** The dictionary that `run` returns, with keys `entities`, `doc_type` and
      `anomalies`. */
  datatype AnalysisResult = AnalysisResult(entities: seq<Entity>, docType: string, anomalies: seq<string>)

  // ---------------------------------------------------------------------------
  // The summary report

  const TITLE: string := "==== Document Analysis Summary ===="
  const ENTITIES_TITLE: string := "Named Entities:"
  const ANOMALIES_TITLE: string := "Anomalies or Missing Info:"
  /** The two headings start with a newline. */
  const ENTITIES_HEADING: string := "\n" + ENTITIES_TITLE
  const ANOMALIES_HEADING: string := "\n" + ANOMALIES_TITLE

  function TypeLine(docType: string): string {
    "Document Type: " + docType
  }

  function EntityLine(e: Entity): string {
    "- " + e.kind + ": " + e.value
  }

  function AnomalyLine(a: string): string {
    "- " + a
  }

  function EntityLines(entities: seq<Entity>): seq<string> {
    seq(|entities|, k requires 0 <= k < |entities| => EntityLine(entities[k]))
  }

  function AnomalyItems(anomalies: seq<string>): seq<string> {
    seq(|anomalies|, k requires 0 <= k < |anomalies| => AnomalyLine(anomalies[k]))
  }

  /** One line per anomaly, or the single line `None` when there are none. */
  function AnomalyLines(anomalies: seq<string>): seq<string> {
    if anomalies == [] then ["None"] else AnomalyItems(anomalies)
  }

  /** The list `report` that `summary_report` builds before joining it. */
  function ReportLines(result: AnalysisResult): seq<string> {
    [TITLE, TypeLine(result.docType)] + [ENTITIES_HEADING] + EntityLines(result.entities)
      + [ANOMALIES_HEADING] + AnomalyLines(result.anomalies)
  }

  /** `summary_report`: the report list grows one line at a time, then is joined with
      newlines. */
  method SummaryReport(result: AnalysisResult) returns (text: string)
    ensures text == Join(ReportLines(result), "\n")
  {
    var report := [TITLE];
    report := report + [TypeLine(result.docType)];
    report := report + [ENTITIES_HEADING];
    var entities := result.entities;
    for i := 0 to |entities|
      invariant report == [TITLE, TypeLine(result.docType)] + [ENTITIES_HEADING] + EntityLines(entities[..i])
    {
      assert EntityLines(entities[..i + 1]) == EntityLines(entities[..i]) + [EntityLine(entities[i])];
      report := report + [EntityLine(entities[i])];
    }
    assert entities[..|entities|] == entities;
    report := report + [ANOMALIES_HEADING];
    var head := report;
    var anomalies := result.anomalies;
    if |anomalies| > 0 {
      for i := 0 to |anomalies|
        invariant report == head + AnomalyItems(anomalies[..i])
      {
        assert AnomalyItems(anomalies[..i + 1]) == AnomalyItems(anomalies[..i]) + [AnomalyLine(anomalies[i])];
        report := report + [AnomalyLine(anomalies[i])];
      }
      assert anomalies[..|anomalies|] == anomalies;
    } else {
      report := report + ["None"];
    }
    text := Join(report, "\n");
  }

  /** The report has the title, the type line, the entities heading, one line per
      entity, the anomalies heading, and one line per anomaly or else one `None`. */
  lemma ReportLength(result: AnalysisResult)
    ensures |ReportLines(result)| == 4 + |result.entities| + (if result.anomalies == [] then 1 else |result.anomalies|)
  {
  }

  /** Where each line of the report list stands. */
  lemma ReportLayout(result: AnalysisResult)
    ensures var lines, n := ReportLines(result), |result.entities|;
            && lines[0] == TITLE
            && lines[1] == "Document Type: " + result.docType
            && lines[2] == ENTITIES_HEADING
            && (forall k | 0 <= k < n :: lines[3 + k] == "- " + result.entities[k].kind + ": " + result.entities[k].value)
            && lines[3 + n] == ANOMALIES_HEADING
            && (result.anomalies == [] ==> lines[4 + n..] == ["None"])
            && (forall k | 0 <= k < |result.anomalies| :: lines[4 + n + k] == "- " + result.anomalies[k])
  {
  }

  lemma EntityLinesNoSep(entities: seq<Entity>)
    requires forall k | 0 <= k < |entities| :: '\n' !in entities[k].kind && '\n' !in entities[k].value
    ensures forall k | 0 <= k < |EntityLines(entities)| :: '\n' !in EntityLines(entities)[k]
  {
  }

  lemma AnomalyLinesNoSep(anomalies: seq<string>)
    requires forall k | 0 <= k < |anomalies| :: '\n' !in anomalies[k]
    ensures forall k | 0 <= k < |AnomalyLines(anomalies)| :: '\n' !in AnomalyLines(anomalies)[k]
  {
  }

  lemma TopNoSep(docType: string)
    requires '\n' !in docType
    ensures '\n' !in TITLE && '\n' !in TypeLine(docType)
    ensures '\n' !in ENTITIES_TITLE && '\n' !in ANOMALIES_TITLE
  {
  }

  lemma SplitPair(x: string, y: string, sep: char)
    requires sep !in x && sep !in y
    ensures SplitAll([x, y], sep) == [x, y]
  {
    SplitNoSep(x, sep);
    SplitNoSep(y, sep);
    assert [x, y][1..] == [y];
    assert SplitAll([y][1..], sep) == [];
  }

  /** Each heading starts with a newline, so it prints as a blank line and the heading. */
  lemma HeadingSplit(heading: string)
    requires '\n' !in heading
    ensures SplitAll(["\n" + heading], '\n') == ["", heading]
  {
    assert "\n" + heading == "" + ['\n'] + heading;
    SplitConcat("", heading, '\n');
    SplitNoSep(heading, '\n');
    assert SplitAll(["\n" + heading][1..], '\n') == [];
  }

  lemma SplitAllFive(a: seq<string>, b: seq<string>, c: seq<string>, d: seq<string>, e: seq<string>, sep: char)
    ensures SplitAll(a + b + c + d + e, sep)
            == SplitAll(a, sep) + SplitAll(b, sep) + SplitAll(c, sep) + SplitAll(d, sep) + SplitAll(e, sep)
  {
    SplitAllAppend(a + b + c + d, e, sep);
    SplitAllAppend(a + b + c, d, sep);
    SplitAllAppend(a + b, c, sep);
    SplitAllAppend(a, b, sep);
  }

  /** The lines of the printed report. When no field holds a newline, the report text
      breaks into the title, the type line, a blank line, `Named Entities:`, the entity
      lines, a blank line, `Anomalies or Missing Info:` and the anomaly lines. */
  lemma ReportTextLines(result: AnalysisResult)
    requires '\n' !in result.docType
    requires forall k | 0 <= k < |result.entities| :: '\n' !in result.entities[k].kind && '\n' !in result.entities[k].value
    requires forall k | 0 <= k < |result.anomalies| :: '\n' !in result.anomalies[k]
    ensures Split(Join(ReportLines(result), "\n"), '\n')
            == [TITLE, TypeLine(result.docType)] + ["", ENTITIES_TITLE] + EntityLines(result.entities)
               + ["", ANOMALIES_TITLE] + AnomalyLines(result.anomalies)
  {
    var top := [TITLE, TypeLine(result.docType)];
    var ents := EntityLines(result.entities);
    var anoms := AnomalyLines(result.anomalies);
    SplitJoin(ReportLines(result), '\n');
    SplitAllFive(top, [ENTITIES_HEADING], ents, [ANOMALIES_HEADING], anoms, '\n');
    TopNoSep(result.docType);
    assert SplitAll(top, '\n') == top by {
      SplitPair(TITLE, TypeLine(result.docType), '\n');
    }
    HeadingSplit(ENTITIES_TITLE);
    HeadingSplit(ANOMALIES_TITLE);
    assert SplitAll(ents, '\n') == ents by {
      EntityLinesNoSep(result.entities);
      SplitAllNoSep(ents, '\n');
    }
    assert SplitAll(anoms, '\n') == anoms by {
      AnomalyLinesNoSep(result.anomalies);
      SplitAllNoSep(anoms, '\n');
    }
  }

  // ---------------------------------------------------------------------------
  // Running the agents

  /** `MultiAgentPipeline.run`. The foreign calls are parameters: `spacy` gives the
      entities that spaCy reports for a document, `classifierReply` the model's reply to
      the classification prompt for a document, and `anomalyReply` the model's reply to
      the anomaly prompt for a document, its entities and its type. The classifier
      agent returns its reply stripped of surrounding whitespace. */
  function Run(document: string, spacy: string -> seq<NerAgent.SpacyEntity>,
               classifierReply: string -> string,
               anomalyReply: (string, seq<Entity>, string) -> string): AnalysisResult
  {
    var entities := NerAgent.Extracted(spacy(document), document);
    var docType := Trim(classifierReply(document));
    var anomalies := AnomalyAgent.Run(document, entities, docType, anomalyReply(document, entities, docType));
    AnalysisResult(entities, docType, anomalies)
  }

  /** The result's entities are the NER agent's output for the document: only kept
      labels and the duration matches. Its type is the classifier's reply without
      surrounding whitespace. */
  lemma RunEntitiesAndType(document: string, spacy: string -> seq<NerAgent.SpacyEntity>,
                           classifierReply: string -> string,
                           anomalyReply: (string, seq<Entity>, string) -> string)
    ensures var r := Run(document, spacy, classifierReply, anomalyReply);
            && (forall k | 0 <= k < |r.entities| :: r.entities[k].kind in ["ORG", "DATE", "MONEY", "DURATION"])
            && (forall v :: Entity("DURATION", v) in r.entities
                  <==> exists p: nat, e: nat :: NerAgent.DurationAt(document, p, e) && document[p..e] == v)
            && r.entities == NerAgent.Extracted(spacy(document), document)
            && r.docType == Trim(classifierReply(document))
            && IsTrimmed(r.docType)
  {
    var r := Run(document, spacy, classifierReply, anomalyReply);
    forall k | 0 <= k < |r.entities|
      ensures r.entities[k].kind in ["ORG", "DATE", "MONEY", "DURATION"]
    {
      NerAgent.ExtractedKinds(spacy(document), document, r.entities[k]);
    }
    forall v
      ensures Entity("DURATION", v) in r.entities
              <==> exists p: nat, e: nat :: NerAgent.DurationAt(document, p, e) && document[p..e] == v
    {
      NerAgent.DurationEntityIff(spacy(document), document, v);
    }
  }

  /** When the anomaly model gives nothing usable (an empty reply, or one that strips
      and lower-cases to `none`, such as ` NONE \n`), the result reports a missing
      effective date exactly when spaCy found no `DATE`. */
  lemma RunMissingDate(document: string, spacy: string -> seq<NerAgent.SpacyEntity>,
                       classifierReply: string -> string,
                       anomalyReply: (string, seq<Entity>, string) -> string)
    requires var entities := NerAgent.Extracted(spacy(document), document);
             var reply := anomalyReply(document, entities, Trim(classifierReply(document)));
             reply == "" || Lower(Trim(reply)) == "none"
    ensures var r := Run(document, spacy, classifierReply, anomalyReply);
            AnomalyAgent.Message(AnomalyAgent.MissingDate) in r.anomalies
            <==> forall k | 0 <= k < |spacy(document)| :: spacy(document)[k].tag != "DATE"
  {
    var ents := spacy(document);
    var r := Run(document, spacy, classifierReply, anomalyReply);
    AnomalyAgent.RunFallback(document, r.entities, r.docType, anomalyReply(document, r.entities, r.docType));
    AnomalyAgent.MissingDateIff(document, r.entities);
    if exists k | 0 <= k < |ents| :: ents[k].tag == "DATE" {
      var k :| 0 <= k < |ents| && ents[k].tag == "DATE";
      NerAgent.ExtractedOthers(ents, document, Entity("DATE", ents[k].text));
      assert ents[k] == NerAgent.SpacyEntity("DATE", ents[k].text);
      var j :| 0 <= j < |r.entities| && r.entities[j] == Entity("DATE", ents[k].text);
    } else {
      forall j | 0 <= j < |r.entities|
        ensures r.entities[j].kind != "DATE"
      {
        var x := r.entities[j];
        if x.kind != "DURATION" {
          NerAgent.ExtractedOthers(ents, document, x);
        }
      }
    }
  }

  /** When the anomaly model gives nothing usable, the anomalies are exactly what the
      rules find for the document and the NER output. */
  lemma RunAnomaliesFromRules(document: string, spacy: string -> seq<NerAgent.SpacyEntity>,
                              classifierReply: string -> string,
                              anomalyReply: (string, seq<Entity>, string) -> string)
    requires var entities := NerAgent.Extracted(spacy(document), document);
             var reply := anomalyReply(document, entities, Trim(classifierReply(document)));
             reply == "" || Lower(Trim(reply)) == "none"
    ensures var r := Run(document, spacy, classifierReply, anomalyReply);
            r.anomalies == AnomalyAgent.RuleAnomalies(document, r.entities)
  {
    var r := Run(document, spacy, classifierReply, anomalyReply);
    AnomalyAgent.RunFallback(document, r.entities, r.docType, anomalyReply(document, r.entities, r.docType));
  }

  /** When the anomaly model gives a usable reply, the anomalies are its parsed lines,
      whatever the rules would have found. */
  lemma RunAnomaliesFromReply(document: string, spacy: string -> seq<NerAgent.SpacyEntity>,
                              classifierReply: string -> string,
                              anomalyReply: (string, seq<Entity>, string) -> string)
    requires var entities := NerAgent.Extracted(spacy(document), document);
             var reply := anomalyReply(document, entities, Trim(classifierReply(document)));
             reply != "" && Lower(Trim(reply)) != "none"
    ensures var r := Run(document, spacy, classifierReply, anomalyReply);
            r.anomalies == AnomalyAgent.ParseReply(anomalyReply(document, r.entities, r.docType))
  {
    var r := Run(document, spacy, classifierReply, anomalyReply);
    AnomalyAgent.RunParsed(document, r.entities, r.docType, anomalyReply(document, r.entities, r.docType),
                           document, r.entities, r.docType);
  }
}
