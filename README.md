# Multi-agent document analysis pipeline, modelled in Dafny

The pipeline analyses a renewable-energy document in three steps.

- The NER agent (`NERAgent.run`) turns spaCy's entities into `{type, value}` records. It keeps only `ORG`, `DATE` and `MONEY`. It then adds one `DURATION` record per match of `\b(\d+\s*(?:years?|months?|days?))\b`, case-insensitively.
- A language model classifies the document. The classifier returns the model's reply with surrounding whitespace stripped.
- The anomaly agent (`AnomalyDetectorAgent.run`) asks a language model for anomalies. If the reply is empty, or strips and lower-cases to `none` (so ` None\n` counts too), it falls back to rules: a missing date, a missing payment clause, and unrealistic or very high `MONEY` values. Otherwise it parses the reply into one item per line.

`MultiAgentPipeline` wires the three together and prints a plain-text summary report.

The model has five modules:

- `Text` (`text.dfy`) holds the Python string operations the agents rely on:
  - `str.isspace` and the regular-expression classes `\s`, `\d`, `\w`;
  - ASCII `lower()` and case-insensitive substring search;
  - `strip()`, `split('\n')` and `'\n'.join`.
- `Entities` (`entities.dfy`) holds the entity record.
- `NerAgent` (`ner_agent.dfy`) models `NERAgent.run`. It is a method with the source's two loops. The duration pattern appears twice:
  - as the regular-expression engine runs it (`MatchAt`, the `findall` scan `SpansFrom`);
  - as a description of the text it matches (`DurationAt`).

  The two are proved to agree.
- `AnomalyAgent` (`anomaly_agent.dfy`) models `rule_based_check` as a method with the source's loop, proved against the specification function `RuleAnomalies`. The reply handling of `run` is a function, as in the source.
- `Pipeline` (`multi_agent_pipeline.dfy`) models the `run` wiring as a function, with the foreign calls as parameters. `summary_report` is a method that grows the report list in loops.

Some observations about the source:

- **The `5-year term` example is not caught.** `ner_agent.py:25` names it, but the duration pattern never matches it. After the digits the pattern needs optional whitespace and then the first letter of a unit, and `-` is neither. `NerAgent.DurationHasNoHyphen` proves that no match ever contains a hyphen.
- **The report list has 4 + entities + max(1, anomalies) elements, but the printed text has 6 + entities + max(1, anomalies) lines when no field contains a newline** (the document type, an entity's type or value, an anomaly). A newline inside a field adds a line: `strip()` keeps newlines inside the classifier's reply, and a spaCy entity value can span lines. The two headings start with `'\n'`, so they are single list elements that each print as two lines. `Pipeline.ReportLength` and `Pipeline.ReportTextLines` state the two counts.
- **Some replies do not fall back to the rules.** A reply of only whitespace is non-empty and does not strip to `none`, so it gives no anomalies at all (`AnomalyAgent.BlankReplyGivesNothing`). The same holds for a reply such as `None\nNone` (`AnomalyAgent.NoneLinesGiveNothing`).
- **`doc_type` has no effect on the rules.** `rule_based_check` takes it as a parameter but never reads it.

## Model

| member | source | states |
|---|---|---|
| Text.LowerChars | anomaly_agent.py:58 | `lower()` keeps the length and lowers each character on its own (ASCII `A`-`Z` only) |
| Text.MatchesAtLower | anomaly_agent.py:37 | a case-insensitive match of `w` at `i` is the same as the lowered slice being equal to `w` |
| Text.SearchIff | anomaly_agent.py:37 | the left-to-right search for a word succeeds exactly when the word occurs somewhere, in any case |
| Text.SpaceEnd | anomaly_agent.py:44 | a greedy `\s*` run from `i`: every character up to the end is whitespace, and the next one is not |
| Text.DigitEnd | anomaly_agent.py:44 | a greedy `\d+` run from `i`: every character up to the end is a digit, and the next one is not |
| Text.SpaceEndUnique | ner_agent.py:26 | a whitespace run that stops at a non-whitespace character ends where `SpaceEnd` ends |
| Text.DigitEndUnique | ner_agent.py:26 | a digit run that stops at a non-digit ends where `DigitEnd` ends |
| Text.DigitEndCovers | anomaly_agent.py:44 | every digit run from `i` lies within the greedy run |
| Text.Trim | anomaly_agent.py:58 | `strip()`: the result has no whitespace at either end |
| Text.TrimSlice | anomaly_agent.py:61 | the stripped text is a slice of the text with only whitespace cut off on each side |
| Text.TrimUnique | anomaly_agent.py:61 | stripping whitespace off a trimmed core gives back the core |
| Text.TrimTrimmed | anomaly_agent.py:61 | stripping a text with no whitespace at either end changes nothing |
| Text.TrimBlank | anomaly_agent.py:61 | a text of only whitespace strips to the empty text |
| Text.TrimKeepsOut | anomaly_agent.py:61 | stripping adds no character, so a line with no newline still has none |
| Text.TrimIdempotent | anomaly_agent.py:61 | stripping twice is stripping once |
| Text.Split | anomaly_agent.py:61 | `split('\n')` always gives at least one piece |
| Text.SplitPieces | anomaly_agent.py:61 | no piece holds the separator |
| Text.SplitChars | anomaly_agent.py:61 | every character of a piece comes from the text |
| Text.JoinSplit | anomaly_agent.py:61 | joining the pieces with the separator gives back the text |
| Text.SplitNoSep | anomaly_agent.py:61 | a text without the separator splits into itself |
| Text.SplitConcat | anomaly_agent.py:61 | splitting `a + sep + b` is splitting `a`, then splitting `b` |
| Text.SplitJoin | multi_agent_pipeline.py:60 | splitting a join of parts gives the pieces of every part in order |
| Text.SplitAllNoSep | multi_agent_pipeline.py:60 | parts without the separator are their own pieces |
| Text.SplitAllAppend | multi_agent_pipeline.py:60 | the pieces of two lists of parts are the pieces of each, in order |
| Text.IsSpace | anomaly_agent.py:44 | definition: the characters of `str.isspace`, which are also what `\s` matches |
| Text.Lower | anomaly_agent.py:58 | definition: `lower()`, character by character, on ASCII letters (`LowerChars` states its effect) |
| Text.SearchFromIff | anomaly_agent.py:37 | the scan from `i` finds the word exactly when it occurs, in any case, at some position from `i` |
| Text.TrimStart | anomaly_agent.py:58 | `lstrip()`: the result is empty or starts with a non-whitespace character |
| Text.TrimEnd | anomaly_agent.py:58 | `rstrip()`: the result is empty or ends with a non-whitespace character |
| Text.Join | multi_agent_pipeline.py:60 | definition: `sep.join(parts)`, the parts with `sep` between neighbours (`JoinSplit` and `SplitJoin` relate it to `Split`) |
| Text.IsDigit | anomaly_agent.py:44 | definition: `\d`, restricted to `0`-`9` (`DigitEnd` and `DigitEndUnique` state the greedy run built on it) |
| Text.IsWordChar | ner_agent.py:26 | definition: the `\w` class behind `\b`, ASCII letters, digits and `_` (`BoundaryAt` is built on it; `LowerLetter` shows that every character lowering to a letter is in it) |
| Text.LowerChar | anomaly_agent.py:58 | definition: `lower()` of one character, mapping `A`-`Z` to `a`-`z` and leaving every other character (`LowerChars` states its effect on a text) |
| Text.AllSpaceIn | anomaly_agent.py:44 | definition: every character of `s[i..j]` is `\s` (`SpaceEnd` and `SpaceEndUnique` state the greedy run) |
| Text.AllDigitsIn | anomaly_agent.py:44 | definition: every character of `s[i..j]` is `\d` (`DigitEnd` and `DigitEndCovers` state the greedy run) |
| Text.MatchesAt | anomaly_agent.py:37 | definition: a lower-case literal matches at `i` under `re.IGNORECASE`, character by character (`MatchesAtLower` states it with `lower()`) |
| Text.ContainsIgnoreCase | anomaly_agent.py:37 | definition: the literal matches at some position of the text, in any case; this is the description `SearchIff` proves the scan equal to |
| Text.SearchFrom | anomaly_agent.py:37 | definition: `re.search` of a literal with `re.IGNORECASE`, trying each position from `i` in turn (`SearchFromIff` and `SearchIff` state its meaning) |
| Text.IsTrimmed | anomaly_agent.py:58 | definition: neither end is whitespace, which is what `Trim` ensures and `TrimTrimmed` shows `strip()` leaves alone |
| Text.SplitAll | multi_agent_pipeline.py:60 | definition: the pieces of every part in turn (`SplitJoin` shows it is what splitting a join gives; `SplitAllAppend` and `SplitAllNoSep` state its shape) |
| AnomalyAgent.HasDateIff | anomaly_agent.py:33 | the scan for a date finds one exactly when some entity has type `DATE` |
| AnomalyAgent.HighAtPosition | anomaly_agent.py:44 | at one position, the greedy scan agrees with `\$\s*\d{9,}` matching there |
| AnomalyAgent.HighFromIff | anomaly_agent.py:44 | the scan from `i` succeeds exactly when the pattern matches at some position from `i` |
| AnomalyAgent.HighPattern | anomaly_agent.py:44 | `re.search(r'\$\s*\d{9,}', v)` (case-sensitive) succeeds exactly when some `$` is followed by optional whitespace and at least nine digits |
| AnomalyAgent.UnrealisticPattern | anomaly_agent.py:42 | `re.search(r'\$0\|zero\|negative', v, re.IGNORECASE)` succeeds exactly when one of the three occurs in any case |
| AnomalyAgent.RuleBasedCheck | anomaly_agent.py:26-46 | the loop's list is exactly `RuleAnomalies`: two header checks, then per `MONEY` entity in order its "Unrealistic" and "Suspiciously high" messages |
| AnomalyAgent.MessagesSnoc | anomaly_agent.py:35-45 | appending a finding appends its message |
| AnomalyAgent.FindingsAfterSplit | anomaly_agent.py:31-45 | after `i` loop steps, the findings are the header findings followed by the findings of the first `i` entities |
| AnomalyAgent.RuleFindingsSplit | anomaly_agent.py:31-46 | the findings are the header findings followed by the loop's findings over all entities |
| AnomalyAgent.MessageInjective | anomaly_agent.py:35-45 | distinct findings have distinct message texts |
| AnomalyAgent.MessagesMembers | anomaly_agent.py:35-45 | a finding's message is in the list exactly when the finding is |
| AnomalyAgent.MoneyFindingsMembers | anomaly_agent.py:40-45 | the loop reports a value finding exactly when a `MONEY` entity with that value meets the finding's pattern |
| AnomalyAgent.MissingDateIff | anomaly_agent.py:33-35 | "Missing effective date." is reported exactly when no entity has type `DATE` |
| AnomalyAgent.MissingPaymentIff | anomaly_agent.py:37-38 | "Missing payment clause or amount." is reported exactly when none of `payment`, `payable`, `amount due`, `invoice` occurs in the document in any case |
| AnomalyAgent.UnrealisticIff | anomaly_agent.py:40-43 | "Unrealistic value: v" is reported exactly when a `MONEY` entity has value `v` matching `\$0\|zero\|negative` |
| AnomalyAgent.SuspiciouslyHighIff | anomaly_agent.py:40-45 | "Suspiciously high value: v" is reported exactly when a `MONEY` entity has value `v` matching `\$\s*\d{9,}` |
| AnomalyAgent.RuleAnomaliesOrder | anomaly_agent.py:31-45 | the date message comes first when present, then the payment message when present, then the per-entity messages |
| AnomalyAgent.MoneyFindingsSnoc | anomaly_agent.py:40-45 | one more loop step adds the findings of that entity at the end |
| AnomalyAgent.MoneyFindingsAppend | anomaly_agent.py:40-45 | the loop's findings over two lists of entities are the findings of each, in order |
| AnomalyAgent.MoneyFindingsAround | anomaly_agent.py:40-45 | an entity's findings sit between those of the entities before it and those after it |
| AnomalyAgent.MoneyFindingsLength | anomaly_agent.py:40-45 | at most two findings per `MONEY` entity |
| AnomalyAgent.RuleAnomaliesLength | anomaly_agent.py:31-46 | at most two header messages plus two per `MONEY` entity |
| AnomalyAgent.IsNoneWordLower | anomaly_agent.py:58 | the `none` test is `s.lower() == 'none'` |
| AnomalyAgent.KeepLinesMembers | anomaly_agent.py:61 | the comprehension's filter keeps a stripped line exactly when it is non-empty and not `none` |
| AnomalyAgent.KeepLinesAppend | anomaly_agent.py:61 | the filter works line by line and keeps the order |
| AnomalyAgent.KeepLinesBlank | anomaly_agent.py:61 | blank lines are all dropped |
| AnomalyAgent.TrimAllMembers | anomaly_agent.py:61 | the stripped lines are exactly the strips of the lines |
| AnomalyAgent.TrimAllAppend | anomaly_agent.py:61 | stripping works line by line and keeps the order |
| AnomalyAgent.ParseReplyMembers | anomaly_agent.py:61 | an item is parsed exactly when it is a stripped line of the reply that is neither empty nor `none` |
| AnomalyAgent.ParseReplyWellFormed | anomaly_agent.py:61 | every parsed item is non-empty, stripped, not `none`, free of newlines, and a stripped line of the reply |
| AnomalyAgent.ParseReplyConcat | anomaly_agent.py:61 | the items of a reply are the items before a line break followed by those after it |
| AnomalyAgent.ParseReplyLine | anomaly_agent.py:61 | a one-line reply gives its stripped line, unless that is empty or `none` |
| AnomalyAgent.RunFallback | anomaly_agent.py:58-59 | an empty reply, or one that strips to `none` in any case, gives exactly the rule-based anomalies |
| AnomalyAgent.RunParsed | anomaly_agent.py:58-61 | any other reply is parsed, and the document, entities and type do not matter |
| AnomalyAgent.BlankReplyGivesNothing | anomaly_agent.py:58-61 | a reply of only whitespace gives no anomalies and does not fall back |
| AnomalyAgent.NoneLineDropped | anomaly_agent.py:61 | a reply line `None` is dropped |
| AnomalyAgent.NoneLinesGiveNothing | anomaly_agent.py:58-61 | the reply `None\nNone` is parsed, not handed to the rules, and gives no anomalies |
| AnomalyAgent.Message | anomaly_agent.py:35-45 | definition: the text of each of the four messages, `Unrealistic value: ` and `Suspiciously high value: ` followed by the value |
| AnomalyAgent.HasDate | anomaly_agent.py:33 | definition: `any(e['type'] == 'DATE' ...)` as a scan (`HasDateIff` states its meaning) |
| AnomalyAgent.MentionsPayment | anomaly_agent.py:37 | definition: some keyword of `payment\|payable\|amount due\|invoice` is found by the case-insensitive scan (`SearchIff` states its meaning) |
| AnomalyAgent.Unrealistic | anomaly_agent.py:42 | definition: the case-insensitive scans for `$0`, `zero` and `negative` (`UnrealisticPattern` states its meaning) |
| AnomalyAgent.HighFrom | anomaly_agent.py:44 | definition: a scan for `$`, then the greedy whitespace and digit runs, needing nine digits (`HighFromIff` states its meaning) |
| AnomalyAgent.SuspiciouslyHigh | anomaly_agent.py:44 | definition: `re.search(r'\$\s*\d{9,}', v)` as the scan from the start (`HighPattern` states its meaning) |
| AnomalyAgent.ParseReply | anomaly_agent.py:61 | definition: the comprehension over `split('\n')`, stripped, without empty and `none` lines (`ParseReplyMembers` and `ParseReplyWellFormed` state its meaning) |
| AnomalyAgent.FallsBack | anomaly_agent.py:58 | definition: `not llm_result or llm_result.strip().lower() == 'none'` (`IsNoneWordLower` ties it to `lower()`) |
| AnomalyAgent.Run | anomaly_agent.py:48-61 | definition: the rules when the reply falls back, the parsed reply otherwise (`RunFallback` and `RunParsed` state both paths) |
| AnomalyAgent.Messages | anomaly_agent.py:35-45 | definition: the message text of each finding, in order (`MessagesSnoc` and `MessagesMembers` state its meaning) |
| AnomalyAgent.HeaderFindings | anomaly_agent.py:33-38 | definition: the date finding when no entity is a `DATE`, then the payment finding when no keyword occurs (`MissingDateIff`, `MissingPaymentIff` and `RuleAnomaliesOrder` state its meaning) |
| AnomalyAgent.ValueFindings | anomaly_agent.py:41-45 | definition: the loop body for one entity, nothing unless it is `MONEY`, then the "Unrealistic" finding before the "Suspiciously high" one (`MoneyFindingsMembers` and `MoneyFindingsAround` state its meaning) |
| AnomalyAgent.MoneyFindings | anomaly_agent.py:40-45 | definition: the loop's findings, entity after entity (`MoneyFindingsMembers`, `MoneyFindingsAppend` and `MoneyFindingsLength` state its meaning) |
| AnomalyAgent.FindingsAfter | anomaly_agent.py:31-45 | definition: the findings once the loop has seen `i` entities, step by step as the method runs (`FindingsAfterSplit` gives it as header findings plus `MoneyFindings`) |
| AnomalyAgent.RuleFindings | anomaly_agent.py:31-46 | definition: the findings after the whole loop (`RuleFindingsSplit` gives it as header findings plus `MoneyFindings`) |
| AnomalyAgent.RuleAnomalies | anomaly_agent.py:31-46 | definition: the list `rule_based_check` returns, the messages of the findings (`RuleBasedCheck` computes it; `MissingDateIff`, `MissingPaymentIff`, `UnrealisticIff`, `SuspiciouslyHighIff`, `RuleAnomaliesOrder` and `RuleAnomaliesLength` state its meaning) |
| AnomalyAgent.HighAt | anomaly_agent.py:44 | definition: the description of `\$\s*\d{9,}` at `i`, a `$`, whitespace up to `j`, then nine digits; `HighAtPosition` and `HighPattern` prove the scan equal to it |
| AnomalyAgent.IsNoneWord | anomaly_agent.py:58-61 | definition: a four-character text whose ASCII lowering is `none` (`IsNoneWordLower` proves it equal to `Lower(s) == "none"`) |
| AnomalyAgent.KeepsLine | anomaly_agent.py:61 | definition: the comprehension's condition on a stripped line, non-empty and not `none` (`KeepLinesMembers` states the filter it drives) |
| AnomalyAgent.TrimAll | anomaly_agent.py:61 | definition: `a.strip()` for each line, in order (`TrimAllMembers` and `TrimAllAppend` state its meaning) |
| AnomalyAgent.KeepLines | anomaly_agent.py:61 | definition: the comprehension's filter over the stripped lines, in order (`KeepLinesMembers`, `KeepLinesAppend` and `KeepLinesBlank` state its meaning) |
| AnomalyAgent.IsReplyLine | anomaly_agent.py:61 | definition: the text is the stripped form of some line of the reply (`ParseReplyMembers` and `ParseReplyWellFormed` use it) |
| NerAgent.UnitEnd | ner_agent.py:26 | the unit alternative ends after the word it matched, inside the text |
| NerAgent.MatchAt | ner_agent.py:26 | a match found at `p` ends after `p`, inside the text |
| NerAgent.UnitEndOfForm | ner_agent.py:26 | when a unit spelling occurs at `b` in any case, the engine's unit ends after its singular stem |
| NerAgent.FormOfUnitEnd | ner_agent.py:26 | a successful unit-and-plural step ends after one of the six unit spellings |
| NerAgent.LowerLetter | ner_agent.py:26 | a character that lowers to a letter is a word character |
| NerAgent.UnitFormLetters | ner_agent.py:26 | a matched unit spelling starts with a word character that is neither a digit nor whitespace, and its singular stem ends with a word character |
| NerAgent.PluralEndOfForm | ner_agent.py:26 | after a stem that ends in a word character, `s?\b` ends at `e` when `e` is a boundary right after the stem or after an `s` that follows it |
| NerAgent.MatchAtSound | ner_agent.py:26 | every match the engine finds is digits, optional whitespace and a unit spelling, between two word boundaries |
| NerAgent.RunsOfShape | ner_agent.py:26 | the digit and whitespace runs of a described match are the engine's greedy runs |
| NerAgent.UnitOfForm | ner_agent.py:26 | a described match's unit is the unit the engine finds |
| NerAgent.MatchAtComplete | ner_agent.py:26 | every described match is found by the engine at its start |
| NerAgent.MatchAtIff | ner_agent.py:26 | the engine matches from `p` to `e` exactly when `s[p..e]` is digits, whitespace and a unit between word boundaries |
| NerAgent.SpansFrom | ner_agent.py:26 | every span `findall` reports from `pos` lies within the text, starts at or after `pos` and is non-empty |
| NerAgent.KeptEntitiesSnoc | ner_agent.py:22-24 | one more step of the first loop keeps that entity when its label is kept |
| NerAgent.DurationEntitiesSnoc | ner_agent.py:27-28 | one more step of the second loop appends that match as a `DURATION` |
| NerAgent.Run | ner_agent.py:14-29 | the list is the kept spaCy entities in spaCy's order, then one `DURATION` per `findall` match in text order |
| NerAgent.UnitCharIsLetter | ner_agent.py:26 | a character matched by a unit spelling is a letter, not a digit and not a hyphen |
| NerAgent.NoMatchInside | ner_agent.py:26 | no match starts strictly inside another match |
| NerAgent.SpansFromIff | ner_agent.py:26 | the scan from `pos` reports `(p, e)` exactly when `p >= pos` and the engine matches from `p` to `e` |
| NerAgent.InOrderCons | ner_agent.py:26 | a span that ends before its successors begin keeps the list ordered |
| NerAgent.SpansFromOrdered | ner_agent.py:26 | the spans are ordered and do not overlap |
| NerAgent.DurationSpansIff | ner_agent.py:26 | `findall` reports a span exactly when the pattern's description holds for it, and the spans are ordered without overlap |
| NerAgent.DurationMatchesShape | ner_agent.py:26 | every returned match text is a described match of the document |
| NerAgent.KeptEntitiesIff | ner_agent.py:22-24 | an entity is kept exactly when spaCy reported it with label `ORG`, `DATE` or `MONEY` |
| NerAgent.KeptEntitiesAppend | ner_agent.py:22-24 | the filter works entity by entity and keeps spaCy's order |
| NerAgent.ExtractedKinds | ner_agent.py:14-29 | every returned entity is an `ORG`, `DATE`, `MONEY` or `DURATION` |
| NerAgent.ExtractedOthers | ner_agent.py:22-24 | a non-`DURATION` entity is returned exactly when spaCy reported it with a kept label |
| NerAgent.DurationEntitySound | ner_agent.py:25-28 | every returned `DURATION` value is a described match of the document |
| NerAgent.DurationEntityComplete | ner_agent.py:25-28 | every described match of the document is returned as a `DURATION` |
| NerAgent.DurationEntityIff | ner_agent.py:25-28 | a `DURATION` is returned exactly for the text of a described match, never for spaCy's own `DURATION` entities |
| NerAgent.TwentyYears | ner_agent.py:25-26 | `findall` on `20 Years` returns `["20 Years"]` |
| NerAgent.DurationHasNoHyphen | ner_agent.py:25-26 | no match contains a hyphen, so a hyphenated duration such as `5-year` is never returned |
| NerAgent.BoundaryAt | ner_agent.py:26 | definition: `\b`, exactly one side of the position is a word character |
| NerAgent.PluralEnd | ner_agent.py:26 | definition: `s?\b`, taking the `s` when a boundary follows it and else giving it back (`PluralEndOfForm` states its meaning) |
| NerAgent.KeptEntities | ner_agent.py:22-24 | definition: the first loop's filter of spaCy's entities to `ORG`, `DATE` and `MONEY` (`KeptEntitiesIff` states its meaning) |
| NerAgent.DurationMatches | ner_agent.py:26 | definition: the texts of the spans `findall` reports (`DurationMatchesShape` states their shape) |
| NerAgent.Extracted | ner_agent.py:19-29 | definition: the kept entities followed by one `DURATION` per match (`ExtractedKinds`, `ExtractedOthers` and `DurationEntityIff` state its meaning) |
| NerAgent.Kept | ner_agent.py:23 | definition: the label is one of `ORG`, `DATE` and `MONEY` (`KeptEntitiesIff` states the filter it drives) |
| NerAgent.AsEntity | ner_agent.py:24 | definition: the record `{"type": ent.label_, "value": ent.text}` (`KeptEntitiesIff` and `ExtractedOthers` state which records are returned) |
| NerAgent.UnitFormAt | ner_agent.py:26 | definition: `s[b..e]` is one of `year`, `years`, `month`, `months`, `day`, `days`, in any case (`UnitEndOfForm` and `FormOfUnitEnd` relate it to the engine) |
| NerAgent.DurationShape | ner_agent.py:26 | definition: `s[p..e]` is one or more digits, then optional whitespace, then a unit spelling (`MatchAtSound` and `RunsOfShape` relate it to the engine) |
| NerAgent.DurationAt | ner_agent.py:26 | definition: the description of the duration pattern, `DurationShape` between two word boundaries; `MatchAtIff` and `DurationSpansIff` prove the engine and `findall` equal to it |
| NerAgent.DurationSpans | ner_agent.py:26 | definition: the `findall` scan from the start of the document (`DurationSpansIff` states exactly which spans it holds, in order) |
| NerAgent.DurationEntities | ner_agent.py:27-28 | definition: one `{"type": "DURATION", "value": match}` record per match, in order (`DurationEntitiesSnoc` and `DurationEntityIff` state its meaning) |
| Pipeline.SummaryReport | multi_agent_pipeline.py:43-60 | the text is the report list joined with newlines: title, type line, entities heading, one line per entity, anomalies heading, one line per anomaly or `None` |
| Pipeline.ReportLength | multi_agent_pipeline.py:47-59 | the report list has 4 + entities + (1 if no anomalies, else anomalies) elements |
| Pipeline.ReportLayout | multi_agent_pipeline.py:47-59 | the title, type line and `- type: value` entity lines in order, the `None` line when there are no anomalies, and the `- a` anomaly lines in order each sit at a fixed position |
| Pipeline.EntityLinesNoSep | multi_agent_pipeline.py:52-53 | entity lines have no newline when the entity fields have none |
| Pipeline.AnomalyLinesNoSep | multi_agent_pipeline.py:55-59 | anomaly lines have no newline when the anomalies have none |
| Pipeline.TopNoSep | multi_agent_pipeline.py:47-54 | the title, the type line and the two heading texts have no newline |
| Pipeline.HeadingSplit | multi_agent_pipeline.py:51 | a heading that starts with `'\n'` prints as a blank line and the heading text |
| Pipeline.ReportTextLines | multi_agent_pipeline.py:43-60 | when no field holds a newline, the printed report's lines are the title, the type line, a blank line, `Named Entities:`, the entity lines, a blank line, `Anomalies or Missing Info:` and the anomaly lines or `None` |
| Pipeline.RunEntitiesAndType | multi_agent_pipeline.py:20-41 | the result's entities are the NER agent's output for the document (only `ORG`, `DATE`, `MONEY` and `DURATION`, with its `DURATION`s exactly the pattern's matches in the document), and its type is the classifier reply stripped of surrounding whitespace |
| Pipeline.RunMissingDate | multi_agent_pipeline.py:26-41 | when the anomaly reply falls back to the rules, a missing effective date is reported exactly when spaCy found no `DATE` |
| Pipeline.RunAnomaliesFromRules | multi_agent_pipeline.py:26-41 | when the anomaly reply is empty or strips and lower-cases to `none`, the anomalies are exactly the rule-based anomalies for the document and the NER output |
| Pipeline.RunAnomaliesFromReply | multi_agent_pipeline.py:33-41 | otherwise the anomalies are the parsed lines of the model's reply to the document, the NER output and the document type |
| Pipeline.TypeLine | multi_agent_pipeline.py:50 | definition: `Document Type: ` followed by the type |
| Pipeline.EntityLine | multi_agent_pipeline.py:53 | definition: `- type: value` for one entity |
| Pipeline.ReportLines | multi_agent_pipeline.py:47-59 | definition: the report list before the join (`ReportLength`, `ReportLayout` and `ReportTextLines` state its shape) |
| Pipeline.Run | multi_agent_pipeline.py:20-41 | definition: the NER output, the stripped classifier reply, and the anomaly agent applied to the document, that output and that type (`RunEntitiesAndType`, `RunMissingDate`, `RunAnomaliesFromRules` and `RunAnomaliesFromReply` state its meaning) |
| Pipeline.AnomalyLine | multi_agent_pipeline.py:57 | definition: `- ` followed by the anomaly (`ReportLayout` states where it sits) |
| Pipeline.EntityLines | multi_agent_pipeline.py:52-53 | definition: one `EntityLine` per entity, in order (`ReportLayout` and `EntityLinesNoSep` state its meaning) |
| Pipeline.AnomalyItems | multi_agent_pipeline.py:56-57 | definition: one `AnomalyLine` per anomaly, in order (`ReportLayout` states its meaning) |
| Pipeline.AnomalyLines | multi_agent_pipeline.py:55-59 | definition: the anomaly lines, or the single line `None` when there are none (`ReportLayout`, `ReportLength` and `AnomalyLinesNoSep` state its meaning) |

## Left out

- `main.py` is not part of this model. It reads and writes files, asks for a key with `getpass` and prints the report, which is all I/O.
- The spaCy model is a parameter. In `NerAgent.Run` it is the sequence `doc.ents`; in `Pipeline.Run` it is a function from the document to that sequence.
- The language-model calls (`LLMChain.run`) of the classifier and of the anomaly agent are parameters: a reply string, or a function giving the reply for the prompt's inputs. The prompt templates are not modelled.
- `classifier_agent.py` is reduced to the only thing it adds to the model's reply: `strip()`, applied in `Pipeline.Run`.
- The `str(entities)` rendering passed to the anomaly prompt is not modelled. It only reaches the foreign call, which here is a function of the entity list itself.
- Logging in `MultiAgentPipeline.__init__` and `run` has no effect on results and is left out.
- Character classes are ASCII-only, as are case-insensitive matching and `lower()`. The model has no Unicode digits for `\d`, no Unicode letters for `\w`, and no non-ASCII case folding. In particular it lacks the non-ASCII matches that `re.IGNORECASE` allows in these patterns: `İ` (U+0130) and `ı` (U+0131) match the `i` of `invoice` and `negative`, and `ſ` (U+017F) matches the `s` of `years?`, `months?` and `days?`. `\s` and `strip()` use the full `str.isspace` set.
- A general regular-expression engine is not modelled. Each of the four patterns is written out as a scan, and each scan is proved equal to a description of what it matches: `Text.SearchIff` for the payment keywords, `AnomalyAgent.UnrealisticPattern`, `AnomalyAgent.HighPattern`, and `NerAgent.MatchAtIff` with `NerAgent.DurationSpansIff` for the duration pattern.
- `KeyError` on entity records without `type` or `value`, or a result without one of its keys, cannot occur: the model's records always have their fields.
