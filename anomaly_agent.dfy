/** The anomaly detector: the rule-based check that flags a missing effective date,
    a missing payment clause and suspicious money amounts, and the step that turns
    the language model's reply into a list of anomalies or falls back to the rules.
    The language model itself is not modelled: its reply is an input. */
module AnomalyAgent {
  import opened Text
  import opened Entities

  /** The alternatives of the pattern `payment|payable|amount due|invoice`. */
  const PAYMENT_KEYWORDS: seq<string> := ["payment", "payable", "amount due", "invoice"]

  // ---------------------------------------------------------------------------
  // The rules

  /** The four kinds of message that the rules append. */
  datatype Finding =
    | MissingDate
    | MissingPayment
    | UnrealisticValue(value: string)
    | HighValue(value: string)

  /** The text of each message, as the rules format it. */
  function Message(f: Finding): string {
    match f
    case MissingDate => "Missing effective date."
    case MissingPayment => "Missing payment clause or amount."
    case UnrealisticValue(v) => "Unrealistic value: " + v
    case HighValue(v) => "Suspiciously high value: " + v
  }

  function Messages(fs: seq<Finding>): seq<string> {
    seq(|fs|, k requires 0 <= k < |fs| => Message(fs[k]))
  }

  lemma MessagesSnoc(fs: seq<Finding>, f: Finding)
    ensures Messages(fs + [f]) == Messages(fs) + [Message(f)]
  {
  }

  /** `any(e['type'] == 'DATE' for e in entities)` */
  predicate HasDate(entities: seq<Entity>)
    decreases |entities|
  {
    entities != [] && (entities[0].kind == "DATE" || HasDate(entities[1..]))
  }

  lemma {:induction false} HasDateIff(entities: seq<Entity>)
    ensures HasDate(entities) <==> exists k | 0 <= k < |entities| :: entities[k].kind == "DATE"
    decreases |entities|
  {
    if entities != [] {
      HasDateIff(entities[1..]);
      if exists k | 0 <= k < |entities| :: entities[k].kind == "DATE" {
        var k :| 0 <= k < |entities| && entities[k].kind == "DATE";
        if k > 0 {
          assert entities[1..][k - 1] == entities[k];
        }
      }
    }
  }

  /** `re.search(r'payment|payable|amount due|invoice', document, re.IGNORECASE)` succeeds. */
  predicate MentionsPayment(document: string) {
    exists k | 0 <= k < |PAYMENT_KEYWORDS| :: SearchFrom(document, PAYMENT_KEYWORDS[k], 0)
  }

  /** `re.search(r'\$0|zero|negative', value, re.IGNORECASE)` succeeds. */
  predicate Unrealistic(value: string) {
    SearchFrom(value, "$0", 0) || SearchFrom(value, "zero", 0) || SearchFrom(value, "negative", 0)
  }

  /** `\$\s*\d{9,}` matches at `i`, with the whitespace running up to `j`. */
  predicate HighAt(value: string, i: nat, j: nat) {
    i < j && j + 9 <= |value| && value[i] == '$'
    && AllSpaceIn(value, i + 1, j) && AllDigitsIn(value, j, j + 9)
  }

  /** `re.search(r'\$\s*\d{9,}', value[i:])` succeeds: from a `$`, the greedy `\s*`
      leaves at least nine digits. Backtracking into `\s*` cannot help, since a digit is
      never whitespace. */
  predicate HighFrom(value: string, i: nat)
    decreases |value| - i
  {
    i < |value|
    && ((value[i] == '$' && DigitEnd(value, SpaceEnd(value, i + 1)) >= SpaceEnd(value, i + 1) + 9)
        || HighFrom(value, i + 1))
  }

  predicate SuspiciouslyHigh(value: string) {
    HighFrom(value, 0)
  }

  /** The scan at one position agrees with the pattern's shape. */
  lemma HighAtPosition(value: string, i: nat)
    requires i < |value|
    ensures (value[i] == '$' && DigitEnd(value, SpaceEnd(value, i + 1)) >= SpaceEnd(value, i + 1) + 9)
            <==> exists j: nat | j <= |value| :: HighAt(value, i, j)
  {
    if exists j: nat | j <= |value| :: HighAt(value, i, j) {
      var j: nat :| j <= |value| && HighAt(value, i, j);
      assert !IsSpace(value[j]);
      SpaceEndUnique(value, i + 1, j);
      DigitEndCovers(value, j, j + 9);
    }
    if value[i] == '$' && DigitEnd(value, SpaceEnd(value, i + 1)) >= SpaceEnd(value, i + 1) + 9 {
      var j := SpaceEnd(value, i + 1);
      assert HighAt(value, i, j);
    }
  }

  lemma {:induction false} HighFromIff(value: string, i: nat)
    ensures HighFrom(value, i) <==> exists p: nat, j: nat | i <= p && j <= |value| :: HighAt(value, p, j)
    decreases |value| - i
  {
    if i < |value| {
      HighAtPosition(value, i);
      HighFromIff(value, i + 1);
      if exists p: nat, j: nat | i <= p && j <= |value| :: HighAt(value, p, j) {
        var p: nat, j: nat :| i <= p && j <= |value| && HighAt(value, p, j);
        if p > i {
          assert i + 1 <= p;
        }
      }
    }
  }

  /** `re.search(r'\$\s*\d{9,}', value)` succeeds exactly when some `$` is followed by
      optional whitespace and nine digits. */
  lemma HighPattern(value: string)
    ensures SuspiciouslyHigh(value) <==> exists i: nat, j: nat | j <= |value| :: HighAt(value, i, j)
  {
    HighFromIff(value, 0);
  }

  /** `re.search(r'\$0|zero|negative', value, re.IGNORECASE)` succeeds exactly when one of
      the three alternatives occurs somewhere in `value`, in any case. */
  lemma UnrealisticPattern(value: string)
    ensures Unrealistic(value)
            <==> ContainsIgnoreCase(value, "$0") || ContainsIgnoreCase(value, "zero")
                 || ContainsIgnoreCase(value, "negative")
  {
    SearchIff(value, "$0");
    SearchIff(value, "zero");
    SearchIff(value, "negative");
  }

  /** What the loop body finds for one entity. */
  function ValueFindings(e: Entity): seq<Finding> {
    if e.kind != "MONEY" then []
    else
      (if Unrealistic(e.value) then [UnrealisticValue(e.value)] else [])
      + (if SuspiciouslyHigh(e.value) then [HighValue(e.value)] else [])
  }

  /** What the loop over `entities` finds, entity after entity. */
  function MoneyFindings(entities: seq<Entity>): seq<Finding>
    decreases |entities|
  {
    if entities == [] then []
    else MoneyFindings(entities[..|entities| - 1]) + ValueFindings(entities[|entities| - 1])
  }

  /** The messages that come before the loop over the entities. */
  function HeaderFindings(document: string, entities: seq<Entity>): seq<Finding> {
    (if HasDate(entities) then [] else [MissingDate])
    + (if MentionsPayment(document) then [] else [MissingPayment])
  }

  /** What `rule_based_check` has found once the loop has seen the first `i` entities.
      It follows the method step by step (the two header checks, then one entity per
      step), which is the form its loop invariant needs; `FindingsAfterSplit` shows it
      is the header findings followed by `MoneyFindings` of those entities, the form the
      properties below are stated in. */
  function FindingsAfter(document: string, entities: seq<Entity>, i: nat): seq<Finding>
    requires i <= |entities|
  {
    if i == 0 then HeaderFindings(document, entities)
    else FindingsAfter(document, entities, i - 1) + ValueFindings(entities[i - 1])
  }

  function RuleFindings(document: string, entities: seq<Entity>): seq<Finding> {
    FindingsAfter(document, entities, |entities|)
  }

  /** The list that `rule_based_check` returns. */
  function RuleAnomalies(document: string, entities: seq<Entity>): seq<string> {
    Messages(RuleFindings(document, entities))
  }

  /** `AnomalyDetectorAgent.rule_based_check`. The document type is accepted and ignored. */
  method RuleBasedCheck(document: string, entities: seq<Entity>, docType: string)
    returns (anomalies: seq<string>)
    ensures anomalies == RuleAnomalies(document, entities)
  {
    ghost var found: seq<Finding> := [];
    anomalies := [];
    if !HasDate(entities) {
      anomalies, found := anomalies + [Message(MissingDate)], found + [MissingDate];
    }
    if !MentionsPayment(document) {
      anomalies, found := anomalies + [Message(MissingPayment)], found + [MissingPayment];
    }
    for i := 0 to |entities|
      invariant found == FindingsAfter(document, entities, i)
      invariant anomalies == Messages(found)
    {
      var e := entities[i];
      if e.kind == "MONEY" {
        if Unrealistic(e.value) {
          MessagesSnoc(found, UnrealisticValue(e.value));
          anomalies, found := anomalies + [Message(UnrealisticValue(e.value))], found + [UnrealisticValue(e.value)];
        }
        if SuspiciouslyHigh(e.value) {
          MessagesSnoc(found, HighValue(e.value));
          anomalies, found := anomalies + [Message(HighValue(e.value))], found + [HighValue(e.value)];
        }
      }
    }
  }

  /** The findings are the two header checks followed by the loop's findings. */
  lemma {:induction false} FindingsAfterSplit(document: string, entities: seq<Entity>, i: nat)
    requires i <= |entities|
    ensures FindingsAfter(document, entities, i) == HeaderFindings(document, entities) + MoneyFindings(entities[..i])
  {
    if i > 0 {
      FindingsAfterSplit(document, entities, i - 1);
      var front, e := entities[..i - 1], entities[i - 1];
      assert entities[..i] == front + [e];
      MoneyFindingsSnoc(front, e);
      AppendAssoc(HeaderFindings(document, entities), MoneyFindings(front), ValueFindings(e));
    }
  }

  lemma RuleFindingsSplit(document: string, entities: seq<Entity>)
    ensures RuleFindings(document, entities) == HeaderFindings(document, entities) + MoneyFindings(entities)
  {
    FindingsAfterSplit(document, entities, |entities|);
    assert entities[..|entities|] == entities;
  }

  // ---------------------------------------------------------------------------
  // Properties of the rules

  /** Distinct findings have distinct texts, so a text names its finding. */
  lemma MessageInjective(f: Finding, g: Finding)
    ensures Message(f) == Message(g) <==> f == g
  {
    if Message(f) == Message(g) {
      var m := Message(f);
      match f
      case MissingDate =>
        assert |m| == 23 && m[0] == 'M';
      case MissingPayment =>
        assert |m| == 33 && m[0] == 'M';
      case UnrealisticValue(v) =>
        assert m[0] == 'U';
        if g.UnrealisticValue? {
          assert v == m[19..] == g.value;
        }
      case HighValue(v) =>
        assert m[0] == 'S';
        if g.HighValue? {
          assert v == m[25..] == g.value;
        }
    }
  }

  lemma MessagesMembers(fs: seq<Finding>, f: Finding)
    ensures Message(f) in Messages(fs) <==> f in fs
  {
    if Message(f) in Messages(fs) {
      var k :| 0 <= k < |fs| && Messages(fs)[k] == Message(f);
      MessageInjective(fs[k], f);
    }
    if f in fs {
      var k :| 0 <= k < |fs| && fs[k] == f;
      assert Messages(fs)[k] == Message(f);
    }
  }

  /** A value is found by the loop exactly when some `MONEY` entity with that value
      meets the finding's pattern. */
  lemma {:induction false} MoneyFindingsMembers(entities: seq<Entity>, f: Finding)
    ensures f in MoneyFindings(entities)
            <==> && (f.UnrealisticValue? || f.HighValue?)
                 && Entity("MONEY", f.value) in entities
                 && (if f.UnrealisticValue? then Unrealistic(f.value) else SuspiciouslyHigh(f.value))
    decreases |entities|
  {
    if entities != [] {
      var n := |entities| - 1;
      MoneyFindingsMembers(entities[..n], f);
      assert entities == entities[..n] + [entities[n]];
    }
  }

  /** "Missing effective date." is reported exactly when no entity is a `DATE`. */
  lemma MissingDateIff(document: string, entities: seq<Entity>)
    ensures Message(MissingDate) in RuleAnomalies(document, entities)
            <==> forall k | 0 <= k < |entities| :: entities[k].kind != "DATE"
  {
    RuleFindingsSplit(document, entities);
    HasDateIff(entities);
    MessagesMembers(RuleFindings(document, entities), MissingDate);
    MoneyFindingsMembers(entities, MissingDate);
  }

  /** "Missing payment clause or amount." is reported exactly when the document
      contains none of the payment keywords, compared case-insensitively. */
  lemma MissingPaymentIff(document: string, entities: seq<Entity>)
    ensures Message(MissingPayment) in RuleAnomalies(document, entities)
            <==> forall k | 0 <= k < |PAYMENT_KEYWORDS| :: !ContainsIgnoreCase(document, PAYMENT_KEYWORDS[k])
  {
    RuleFindingsSplit(document, entities);
    forall k | 0 <= k < |PAYMENT_KEYWORDS| {
      SearchIff(document, PAYMENT_KEYWORDS[k]);
    }
    MessagesMembers(RuleFindings(document, entities), MissingPayment);
    MoneyFindingsMembers(entities, MissingPayment);
  }

  /** "Unrealistic value: v" is reported exactly when some `MONEY` entity has value `v`
      and `v` mentions `$0`, `zero` or `negative`. */
  lemma UnrealisticIff(document: string, entities: seq<Entity>, v: string)
    ensures "Unrealistic value: " + v in RuleAnomalies(document, entities)
            <==> Unrealistic(v) && Entity("MONEY", v) in entities
  {
    assert Message(UnrealisticValue(v)) == "Unrealistic value: " + v;
    RuleFindingsSplit(document, entities);
    MessagesMembers(RuleFindings(document, entities), UnrealisticValue(v));
    MoneyFindingsMembers(entities, UnrealisticValue(v));
  }

  /** "Suspiciously high value: v" is reported exactly when some `MONEY` entity has
      value `v` and `v` holds `$`, optional whitespace and at least nine digits. */
  lemma SuspiciouslyHighIff(document: string, entities: seq<Entity>, v: string)
    ensures "Suspiciously high value: " + v in RuleAnomalies(document, entities)
            <==> SuspiciouslyHigh(v) && Entity("MONEY", v) in entities
  {
    assert Message(HighValue(v)) == "Suspiciously high value: " + v;
    RuleFindingsSplit(document, entities);
    MessagesMembers(RuleFindings(document, entities), HighValue(v));
    MoneyFindingsMembers(entities, HighValue(v));
  }

  /** The messages are ordered: the date message first, if any, then the payment
      message, if any, then only value messages. */
  lemma RuleAnomaliesOrder(document: string, entities: seq<Entity>)
    ensures var r := RuleFindings(document, entities);
            var h := (if HasDate(entities) then 0 else 1) + (if MentionsPayment(document) then 0 else 1);
            && h <= |r|
            && (!HasDate(entities) ==> r[0] == MissingDate)
            && (!MentionsPayment(document) ==> r[h - 1] == MissingPayment)
            && forall k | h <= k < |r| :: r[k].UnrealisticValue? || r[k].HighValue?
  {
    RuleFindingsSplit(document, entities);
    var r := RuleFindings(document, entities);
    var h := (if HasDate(entities) then 0 else 1) + (if MentionsPayment(document) then 0 else 1);
    forall k | h <= k < |r| ensures r[k].UnrealisticValue? || r[k].HighValue? {
      assert r[k] in MoneyFindings(entities);
      MoneyFindingsMembers(entities, r[k]);
    }
  }

  lemma MoneyFindingsSnoc(a: seq<Entity>, e: Entity)
    ensures MoneyFindings(a + [e]) == MoneyFindings(a) + ValueFindings(e)
  {
    assert (a + [e])[..|a|] == a;
  }

  lemma AppendAssoc(x: seq<Finding>, y: seq<Finding>, z: seq<Finding>)
    ensures x + y + z == x + (y + z)
  {
  }

  lemma {:induction false} MoneyFindingsAppend(a: seq<Entity>, b: seq<Entity>)
    ensures MoneyFindings(a + b) == MoneyFindings(a) + MoneyFindings(b)
    decreases |b|
  {
    if b == [] {
      assert a + b == a;
    } else {
      var n := |b| - 1;
      var front, last := b[..n], b[n];
      assert b == front + [last];
      assert a + b == (a + front) + [last];
      MoneyFindingsAppend(a, front);
      MoneyFindingsSnoc(a + front, last);
      MoneyFindingsSnoc(front, last);
      AppendAssoc(MoneyFindings(a), MoneyFindings(front), ValueFindings(last));
    }
  }

  /** The findings of an entity come, "Unrealistic" before "Suspiciously high", after
      those of the entities before it and before those of the entities after it. */
  lemma MoneyFindingsAround(before: seq<Entity>, e: Entity, after: seq<Entity>)
    ensures MoneyFindings(before + [e] + after)
            == MoneyFindings(before) + ValueFindings(e) + MoneyFindings(after)
  {
    MoneyFindingsAppend(before + [e], after);
    MoneyFindingsSnoc(before, e);
  }

  function CountMoney(entities: seq<Entity>): nat
    decreases |entities|
  {
    if entities == [] then 0
    else CountMoney(entities[..|entities| - 1]) + (if entities[|entities| - 1].kind == "MONEY" then 1 else 0)
  }

  lemma {:induction false} MoneyFindingsLength(entities: seq<Entity>)
    ensures |MoneyFindings(entities)| <= 2 * CountMoney(entities)
    decreases |entities|
  {
    if entities != [] {
      MoneyFindingsLength(entities[..|entities| - 1]);
    }
  }

  /** At most two messages per `MONEY` entity and two more. */
  lemma RuleAnomaliesLength(document: string, entities: seq<Entity>)
    ensures |RuleAnomalies(document, entities)| <= 2 + 2 * CountMoney(entities)
  {
    RuleFindingsSplit(document, entities);
    MoneyFindingsLength(entities);
  }

  // ---------------------------------------------------------------------------
  // The language model's reply

  /** `s.lower() == 'none'`. Python's full lower-casing maps no character outside ASCII
      to `n`, `o` or `e`, so the ASCII form decides this comparison exactly. */
  predicate IsNoneWord(s: string) {
    |s| == 4 && LowerChar(s[0]) == 'n' && LowerChar(s[1]) == 'o' && LowerChar(s[2]) == 'n'
    && LowerChar(s[3]) == 'e'
  }

  /** `IsNoneWord` is the comparison `s.lower() == 'none'`. */
  lemma IsNoneWordLower(s: string)
    ensures IsNoneWord(s) <==> Lower(s) == "none"
  {
    LowerChars(s);
    if |s| == 4 && Lower(s) != "none" {
      var k :| 0 <= k < 4 && Lower(s)[k] != "none"[k];
    }
  }

  /** The filter of the list comprehension, applied to a stripped line. */
  predicate KeepsLine(t: string) {
    t != "" && !IsNoneWord(t)
  }

  /** `[a.strip() for a in lines]` */
  function TrimAll(lines: seq<string>): seq<string> {
    seq(|lines|, k requires 0 <= k < |lines| => Trim(lines[k]))
  }

  /** The filter `if a.strip() and a.strip().lower() != 'none'`, applied to the
      stripped lines in order. */
  function KeepLines(stripped: seq<string>): seq<string> {
    if stripped == [] then []
    else (if KeepsLine(stripped[0]) then [stripped[0]] else []) + KeepLines(stripped[1..])
  }

  /** The list comprehension of `run` over `llm_result.split('\n')`. */
  function ParseReply(reply: string): seq<string> {
    KeepLines(TrimAll(Split(reply, '\n')))
  }

  /** `not llm_result or llm_result.strip().lower() == 'none'` */
  predicate FallsBack(reply: string) {
    reply == "" || IsNoneWord(Trim(reply))
  }

  /** `AnomalyDetectorAgent.run`, with the model's reply to the prompt built from
      `document`, `entities` and `docType` as the parameter `reply`. */
  function Run(document: string, entities: seq<Entity>, docType: string, reply: string): seq<string> {
    if FallsBack(reply) then RuleAnomalies(document, entities) else ParseReply(reply)
  }

  // ---------------------------------------------------------------------------
  // Properties of the parsing step

  lemma {:induction false} KeepLinesMembers(stripped: seq<string>, x: string)
    ensures x in KeepLines(stripped) <==> KeepsLine(x) && x in stripped
  {
    if stripped != [] {
      KeepLinesMembers(stripped[1..], x);
      assert stripped == [stripped[0]] + stripped[1..];
    }
  }

  lemma {:induction false} KeepLinesAppend(a: seq<string>, b: seq<string>)
    ensures KeepLines(a + b) == KeepLines(a) + KeepLines(b)
  {
    if a == [] {
      assert a + b == b;
    } else {
      assert (a + b)[1..] == a[1..] + b;
      KeepLinesAppend(a[1..], b);
    }
  }

  /** Lines that are all blank are all dropped. */
  lemma {:induction false} KeepLinesBlank(stripped: seq<string>)
    requires forall k | 0 <= k < |stripped| :: stripped[k] == ""
    ensures KeepLines(stripped) == []
  {
    if stripped != [] {
      KeepLinesBlank(stripped[1..]);
    }
  }

  lemma TrimAllMembers(lines: seq<string>, x: string)
    ensures x in TrimAll(lines) <==> exists k | 0 <= k < |lines| :: Trim(lines[k]) == x
  {
    if exists k | 0 <= k < |lines| :: Trim(lines[k]) == x {
      var k :| 0 <= k < |lines| && Trim(lines[k]) == x;
      assert TrimAll(lines)[k] == x;
    }
  }

  lemma TrimAllAppend(a: seq<string>, b: seq<string>)
    ensures TrimAll(a + b) == TrimAll(a) + TrimAll(b)
  {
    assert forall k | |a| <= k < |a| + |b| :: (a + b)[k] == b[k - |a|];
  }

  /** `x` is the stripped form of some line of `reply`. */
  predicate IsReplyLine(reply: string, x: string) {
    exists k | 0 <= k < |Split(reply, '\n')| :: Trim(Split(reply, '\n')[k]) == x
  }

  /** An element of the parsed reply is exactly a stripped line of the reply that is
      neither blank nor `none`. */
  lemma ParseReplyMembers(reply: string, x: string)
    ensures x in ParseReply(reply) <==> x != "" && !IsNoneWord(x) && IsReplyLine(reply, x)
  {
    var lines := Split(reply, '\n');
    KeepLinesMembers(TrimAll(lines), x);
    TrimAllMembers(lines, x);
  }

  /** Every element of the parsed reply is non-empty, has no whitespace at either end,
      is not `none` in any case, and holds no line break. */
  lemma ParseReplyWellFormed(reply: string)
    ensures forall k | 0 <= k < |ParseReply(reply)| ::
              var x := ParseReply(reply)[k];
              x != "" && IsTrimmed(x) && !IsNoneWord(x) && '\n' !in x && IsReplyLine(reply, x)
  {
    var lines := Split(reply, '\n');
    SplitPieces(reply, '\n');
    forall k | 0 <= k < |ParseReply(reply)|
      ensures var x := ParseReply(reply)[k];
              x != "" && IsTrimmed(x) && !IsNoneWord(x) && '\n' !in x && IsReplyLine(reply, x)
    {
      var x := ParseReply(reply)[k];
      ParseReplyMembers(reply, x);
      var j :| 0 <= j < |lines| && Trim(lines[j]) == x;
      TrimKeepsOut(lines[j], '\n');
    }
  }

  /** The lines of the reply keep their order: the lines before a line break are parsed
      before the lines after it. */
  lemma ParseReplyConcat(r1: string, r2: string)
    ensures ParseReply(r1 + "\n" + r2) == ParseReply(r1) + ParseReply(r2)
  {
    SplitConcat(r1, r2, '\n');
    TrimAllAppend(Split(r1, '\n'), Split(r2, '\n'));
    KeepLinesAppend(TrimAll(Split(r1, '\n')), TrimAll(Split(r2, '\n')));
  }

  /** A reply of one line gives that line stripped, unless it is blank or `none`. */
  lemma ParseReplyLine(line: string)
    requires '\n' !in line
    ensures ParseReply(line) == if KeepsLine(Trim(line)) then [Trim(line)] else []
  {
    SplitNoSep(line, '\n');
    assert TrimAll([line]) == [Trim(line)];
    assert [Trim(line)][1..] == [];
  }

  // ---------------------------------------------------------------------------
  // Properties of `run`

  /** An empty reply, or one that strips to `none` in any case, gives exactly the
      rule-based result. */
  lemma RunFallback(document: string, entities: seq<Entity>, docType: string, reply: string)
    requires reply == "" || Lower(Trim(reply)) == "none"
    ensures Run(document, entities, docType, reply) == RuleAnomalies(document, entities)
  {
    IsNoneWordLower(Trim(reply));
  }

  /** Any other reply is parsed without consulting the rules: the result depends on
      the reply alone, and each element is a stripped, non-blank, non-`none` line of it. */
  lemma RunParsed(document: string, entities: seq<Entity>, docType: string, reply: string,
                  document': string, entities': seq<Entity>, docType': string)
    requires reply != "" && Lower(Trim(reply)) != "none"
    ensures Run(document, entities, docType, reply) == Run(document', entities', docType', reply)
    ensures Run(document, entities, docType, reply) == ParseReply(reply)
  {
    IsNoneWordLower(Trim(reply));
  }

  /** A reply of only whitespace is not empty and does not strip to `none`, so it is
      parsed, and it yields no anomalies at all: the rules are not consulted. */
  lemma BlankReplyGivesNothing(document: string, entities: seq<Entity>, docType: string, reply: string)
    requires reply != "" && AllSpace(reply)
    ensures Run(document, entities, docType, reply) == []
  {
    TrimBlank(reply);
    var lines := Split(reply, '\n');
    SplitChars(reply, '\n');
    forall k | 0 <= k < |lines| ensures TrimAll(lines)[k] == "" {
      assert AllSpace(lines[k]) by {
        forall i | 0 <= i < |lines[k]| ensures IsSpace(lines[k][i]) {
          assert lines[k][i] in reply;
        }
      }
      TrimBlank(lines[k]);
    }
    KeepLinesBlank(TrimAll(lines));
  }

  /** A reply line "None" is dropped. */
  lemma NoneLineDropped()
    ensures ParseReply("None") == []
  {
    TrimTrimmed("None");
    ParseReplyLine("None");
  }

  /** The reply "None\nNone" is parsed, not handed to the rules, and gives no anomalies. */
  lemma NoneLinesGiveNothing(document: string, entities: seq<Entity>, docType: string)
    ensures Run(document, entities, docType, "None\nNone") == []
  {
    var reply := "None\nNone";
    TrimTrimmed(reply);
    assert !FallsBack(reply);
    assert reply == "None" + "\n" + "None";
    ParseReplyConcat("None", "None");
    NoneLineDropped();
  }
}
