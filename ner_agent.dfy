/** The entity extractor: the entities that spaCy reports with one of the labels `ORG`,
    `DATE` and `MONEY`, in spaCy's order, followed by one `DURATION` entity for each match
    of the contract-duration pattern `\b(\d+\s*(?:years?|months?|days?))\b` (matched with
    `re.IGNORECASE`, found with `re.findall`) in the order the matches occur. The spaCy
    model itself is not modelled: the entities it reports are an input. */
module NerAgent {
  import opened Text
  import opened Entities

  /** One entry of `doc.ents`: its label (`label_`) and its `text`. */
  datatype SpacyEntity = SpacyEntity(tag: string, text: string)

  datatype Option<T> = None | Some(value: T)

  /** The labels that are kept from spaCy's output. */
  const KEPT_LABELS: seq<string> := ["ORG", "DATE", "MONEY"]

  /** The six spellings of a unit that the pattern accepts, in lower case. */
  const UNIT_FORMS: seq<string> := ["year", "years", "month", "months", "day", "days"]

  // ---------------------------------------------------------------------------
  // The spaCy entities

  predicate Kept(e: SpacyEntity) {
    e.tag in KEPT_LABELS
  }

  function AsEntity(e: SpacyEntity): Entity {
    Entity(e.tag, e.text)
  }

  /** What the first loop of `run` appends, entity after entity. */
  function KeptEntities(ents: seq<SpacyEntity>): seq<Entity>
    decreases |ents|
  {
    if ents == [] then []
    else
      var last := ents[|ents| - 1];
      KeptEntities(ents[..|ents| - 1]) + (if Kept(last) then [AsEntity(last)] else [])
  }

  // ---------------------------------------------------------------------------
  // The duration pattern, as the regular-expression engine runs it

  /** `\b` at position `q`: exactly one of the characters on either side is a word
      character. */
  predicate BoundaryAt(s: string, q: nat)
    requires q <= |s|
  {
    (q > 0 && IsWordChar(s[q - 1])) != (q < |s| && IsWordChar(s[q]))
  }

  /** The alternative of `year|month|day` that matches at `w`, and where it ends. The
      three start with different letters, so at most one can match. */
  function UnitEnd(s: string, w: nat): (r: Option<nat>)
    requires w <= |s|
    ensures r.Some? ==> w < r.value <= |s|
  {
    if MatchesAt(s, w, "year") then Some(w + 4)
    else if MatchesAt(s, w, "month") then Some(w + 5)
    else if MatchesAt(s, w, "day") then Some(w + 3)
    else None
  }

  /** `s?` followed by `\b`, after a unit that ends at `u`: the engine first tries to take
      the `s`, and gives it back when no boundary follows it. */
  function PluralEnd(s: string, u: nat): Option<nat>
    requires u <= |s|
  {
    if u < |s| && LowerChar(s[u]) == 's' && BoundaryAt(s, u + 1) then Some(u + 1)
    else if BoundaryAt(s, u) then Some(u)
    else None
  }

  /** The match of the pattern that starts at `p`, if the engine finds one, given by
      where it ends. The greedy `\d+` and `\s*` never need to give characters back: a
      shorter digit run would leave a digit where whitespace or a unit is needed, and a
      shorter whitespace run would leave whitespace where a unit is needed. */
  function MatchAt(s: string, p: nat): (r: Option<nat>)
    requires p <= |s|
    ensures r.Some? ==> p < r.value <= |s|
  {
    if p < |s| && IsDigit(s[p]) && BoundaryAt(s, p) then
      var w := SpaceEnd(s, DigitEnd(s, p));
      match UnitEnd(s, w)
      case None => None
      case Some(u) => PluralEnd(s, u)
    else None
  }

  // ---------------------------------------------------------------------------
  // The duration pattern, as a description of the text it matches

  /** `s[b..e]` is one of the six unit spellings, in any case. */
  predicate UnitFormAt(s: string, b: nat, e: nat) {
    exists k | 0 <= k < |UNIT_FORMS| :: e == b + |UNIT_FORMS[k]| && MatchesAt(s, b, UNIT_FORMS[k])
  }

  /** `s[p..e]` is digits up to `a`, whitespace up to `b`, then a unit spelling. */
  predicate DurationShape(s: string, p: nat, a: nat, b: nat, e: nat) {
    p < a <= b <= e <= |s| && AllDigitsIn(s, p, a) && AllSpaceIn(s, a, b) && UnitFormAt(s, b, e)
  }

  /** The pattern matches `s[p..e]`: the shape above with a word boundary at both ends. */
  predicate DurationAt(s: string, p: nat, e: nat) {
    p < e <= |s| && BoundaryAt(s, p) && BoundaryAt(s, e)
    && exists a: nat, b: nat | a <= b <= e :: DurationShape(s, p, a, b, e)
  }

  // ---------------------------------------------------------------------------
  // The engine finds exactly the text the description allows

  /** A unit spelling at `b` is one the engine recognises, with the plural `s` left for
      `PluralEnd`; the odd entries of `UNIT_FORMS` are the plurals. */
  lemma UnitEndOfForm(s: string, b: nat, k: nat)
    requires b <= |s| && k < |UNIT_FORMS| && MatchesAt(s, b, UNIT_FORMS[k])
    ensures UnitEnd(s, b) == Some(b + |UNIT_FORMS[k]| - k % 2)
  {
    MatchesAtChar(s, b, UNIT_FORMS[k], 0);
    var c := LowerChar(s[b]);
    if MatchesAt(s, b, "year") {
      MatchesAtChar(s, b, "year", 0);
    }
    if MatchesAt(s, b, "month") {
      MatchesAtChar(s, b, "month", 0);
    }
    if k == 1 {
      assert UNIT_FORMS[1] == "year" + ['s'];
      MatchesAtPrefix(s, b, "year", 's');
    } else if k == 3 {
      assert UNIT_FORMS[3] == "month" + ['s'];
      MatchesAtPrefix(s, b, "month", 's');
    } else if k == 5 {
      assert UNIT_FORMS[5] == "day" + ['s'];
      MatchesAtPrefix(s, b, "day", 's');
    }
  }

  /** What the engine recognises at `b` is a unit spelling. */
  lemma FormOfUnitEnd(s: string, b: nat, u: nat, e: nat)
    requires b <= |s| && UnitEnd(s, b) == Some(u) && PluralEnd(s, u) == Some(e)
    ensures UnitFormAt(s, b, e) && BoundaryAt(s, e)
  {
    var base := if MatchesAt(s, b, "year") then 0 else if MatchesAt(s, b, "month") then 2 else 4;
    assert MatchesAt(s, b, UNIT_FORMS[base]);
    if e == u + 1 {
      MatchesAtExtend(s, b, UNIT_FORMS[base], 's');
      assert UNIT_FORMS[base] + ['s'] == UNIT_FORMS[base + 1];
    }
  }

  /** A lower-cased letter comes from a letter. */
  lemma LowerLetter(c: char)
    requires 'a' <= LowerChar(c) <= 'z'
    ensures IsWordChar(c)
  {
  }

  /** A unit spelling starts with a letter other than `s` and ends, before any plural
      `s`, with a letter. */
  lemma UnitFormLetters(s: string, b: nat, k: nat)
    requires k < |UNIT_FORMS| && MatchesAt(s, b, UNIT_FORMS[k])
    ensures IsWordChar(s[b]) && !IsDigit(s[b]) && !IsSpace(s[b])
    ensures IsWordChar(s[b + |UNIT_FORMS[k]| - k % 2 - 1])
  {
    MatchesAtChar(s, b, UNIT_FORMS[k], 0);
    LowerLetter(s[b]);
    MatchesAtChar(s, b, UNIT_FORMS[k], |UNIT_FORMS[k]| - k % 2 - 1);
    LowerLetter(s[b + |UNIT_FORMS[k]| - k % 2 - 1]);
  }

  /** After a unit that ends at `u`, the engine's choice about the plural `s` agrees with
      any ending that the description allows. */
  lemma PluralEndOfForm(s: string, u: nat, e: nat)
    requires 0 < u <= e <= |s| && IsWordChar(s[u - 1]) && BoundaryAt(s, e)
    requires e == u || (e == u + 1 && LowerChar(s[u]) == 's')
    ensures PluralEnd(s, u) == Some(e)
  {
    if e == u && u < |s| && LowerChar(s[u]) == 's' {
      LowerLetter(s[u]);
    }
  }

  /** Every match of the engine is a span that the description allows. */
  lemma MatchAtSound(s: string, p: nat)
    requires p <= |s| && MatchAt(s, p).Some?
    ensures DurationAt(s, p, MatchAt(s, p).value)
  {
    var e := MatchAt(s, p).value;
    var a := DigitEnd(s, p);
    var b := SpaceEnd(s, a);
    var u := UnitEnd(s, b).value;
    FormOfUnitEnd(s, b, u, e);
    assert DurationShape(s, p, a, b, e);
  }

  /** Digits up to `a` and whitespace up to a letter at `b` are the greedy runs. */
  lemma RunsOfShape(s: string, p: nat, a: nat, b: nat)
    requires p <= a <= b < |s| && AllDigitsIn(s, p, a) && AllSpaceIn(s, a, b)
    requires !IsDigit(s[b]) && !IsSpace(s[b])
    ensures DigitEnd(s, p) == a && SpaceEnd(s, a) == b
  {
    assert a < b ==> IsSpace(s[a]);
    DigitEndUnique(s, p, a);
    SpaceEndUnique(s, a, b);
  }

  /** A unit spelling at `b` that ends at a boundary `e` is what the engine takes. */
  lemma UnitOfForm(s: string, b: nat, k: nat, e: nat)
    requires b <= |s| && k < |UNIT_FORMS| && MatchesAt(s, b, UNIT_FORMS[k])
    requires e == b + |UNIT_FORMS[k]| && BoundaryAt(s, e)
    ensures UnitEnd(s, b).Some? && PluralEnd(s, UnitEnd(s, b).value) == Some(e)
  {
    UnitFormLetters(s, b, k);
    UnitEndOfForm(s, b, k);
    var u := b + |UNIT_FORMS[k]| - k % 2;
    if k % 2 == 1 {
      MatchesAtChar(s, b, UNIT_FORMS[k], |UNIT_FORMS[k]| - 1);
    }
    PluralEndOfForm(s, u, e);
  }

  /** Every span that the description allows is the engine's match at its start. */
  lemma MatchAtComplete(s: string, p: nat, e: nat)
    requires DurationAt(s, p, e)
    ensures MatchAt(s, p) == Some(e)
  {
    var a: nat, b: nat :| a <= b <= e && DurationShape(s, p, a, b, e);
    var k :| 0 <= k < |UNIT_FORMS| && e == b + |UNIT_FORMS[k]| && MatchesAt(s, b, UNIT_FORMS[k]);
    UnitFormLetters(s, b, k);
    RunsOfShape(s, p, a, b);
    UnitOfForm(s, b, k, e);
  }

  /** The engine's match at `p` is exactly a span that the description allows. */
  lemma MatchAtIff(s: string, p: nat, e: nat)
    requires p <= |s|
    ensures MatchAt(s, p) == Some(e) <==> DurationAt(s, p, e)
  {
    if MatchAt(s, p) == Some(e) {
      MatchAtSound(s, p);
    }
    if DurationAt(s, p, e) {
      MatchAtComplete(s, p, e);
    }
  }

  // ---------------------------------------------------------------------------
  // `re.findall`

  /** The spans that `re.findall` reports when it scans `s` from `pos`: it tries a match
      at each position in turn, and after a match it carries on where the match ended. */
  function SpansFrom(s: string, pos: nat): (r: seq<(nat, nat)>)
    requires pos <= |s|
    ensures forall k | 0 <= k < |r| :: pos <= r[k].0 < r[k].1 <= |s|
    decreases |s| - pos
  {
    if pos == |s| then []
    else
      match MatchAt(s, pos)
      case Some(e) => [(pos, e)] + SpansFrom(s, e)
      case None => SpansFrom(s, pos + 1)
  }

  function DurationSpans(s: string): seq<(nat, nat)> {
    SpansFrom(s, 0)
  }

  /** The list that `re.findall` returns: the text of each match, since the one group
      covers the whole pattern. */
  function DurationMatches(s: string): seq<string> {
    var spans := DurationSpans(s);
    seq(|spans|, k requires 0 <= k < |spans| => s[spans[k].0..spans[k].1])
  }

  function DurationEntities(matches: seq<string>): seq<Entity> {
    seq(|matches|, k requires 0 <= k < |matches| => Entity("DURATION", matches[k]))
  }

  /** The list that `NERAgent.run` returns, for the entities that spaCy reports. */
  function Extracted(spacyEnts: seq<SpacyEntity>, document: string): seq<Entity> {
    KeptEntities(spacyEnts) + DurationEntities(DurationMatches(document))
  }

  // ---------------------------------------------------------------------------
  // `NERAgent.run`

  lemma KeptEntitiesSnoc(ents: seq<SpacyEntity>, i: nat)
    requires i < |ents|
    ensures KeptEntities(ents[..i + 1])
            == KeptEntities(ents[..i]) + (if Kept(ents[i]) then [AsEntity(ents[i])] else [])
  {
    assert ents[..i + 1][..i] == ents[..i];
  }

  lemma DurationEntitiesSnoc(matches: seq<string>, i: nat)
    requires i < |matches|
    ensures DurationEntities(matches[..i + 1]) == DurationEntities(matches[..i]) + [Entity("DURATION", matches[i])]
  {
  }

  /** `NERAgent.run`, with the entities that spaCy finds in `document` as `spacyEnts`. */
  method Run(spacyEnts: seq<SpacyEntity>, document: string) returns (entities: seq<Entity>)
    ensures entities == Extracted(spacyEnts, document)
  {
    entities := [];
    for i := 0 to |spacyEnts|
      invariant entities == KeptEntities(spacyEnts[..i])
    {
      var ent := spacyEnts[i];
      if ent.tag in KEPT_LABELS {
        entities := entities + [Entity(ent.tag, ent.text)];
      }
      KeptEntitiesSnoc(spacyEnts, i);
    }
    assert spacyEnts[..|spacyEnts|] == spacyEnts;
    var kept := entities;
    var matches := DurationMatches(document);
    for i := 0 to |matches|
      invariant entities == kept + DurationEntities(matches[..i])
    {
      DurationEntitiesSnoc(matches, i);
      entities := entities + [Entity("DURATION", matches[i])];
    }
    assert matches[..|matches|] == matches;
  }

  // ---------------------------------------------------------------------------
  // Properties of the scan

  /** A character that lower-cases to a letter is not a digit. */
  lemma LetterNotDigit(c: char)
    requires 'a' <= LowerChar(c) <= 'z'
    ensures !IsDigit(c)
  {
  }

  lemma UnitFormsAreLetters(k: nat, i: nat)
    requires k < |UNIT_FORMS| && i < |UNIT_FORMS[k]|
    ensures 'a' <= UNIT_FORMS[k][i] <= 'z'
  {
  }

  /** A character matched by a unit spelling is a letter, in either case, and so
      neither a digit nor a hyphen. */
  lemma UnitCharIsLetter(s: string, b: nat, k: nat, j: nat)
    requires k < |UNIT_FORMS| && b <= j < b + |UNIT_FORMS[k]| && MatchesAt(s, b, UNIT_FORMS[k])
    ensures 'a' <= LowerChar(s[j]) <= 'z' && !IsDigit(s[j]) && s[j] != '-'
  {
    var w := UNIT_FORMS[k];
    MatchesAtChar(s, b, w, j - b);
    assert b + (j - b) == j;
    UnitFormsAreLetters(k, j - b);
    LetterNotDigit(s[j]);
  }

  /** No match starts strictly inside another: inside a match, a digit follows a digit
      (no boundary), or the character is whitespace or a letter (no digit). */
  lemma NoMatchInside(s: string, p: nat, q: nat)
    requires p < q <= |s| && MatchAt(s, p).Some? && q < MatchAt(s, p).value
    ensures MatchAt(s, q) == None
  {
    MatchAtSound(s, p);
    var e := MatchAt(s, p).value;
    var a: nat, b: nat :| a <= b <= e && DurationShape(s, p, a, b, e);
    if q < a {
      assert IsDigit(s[q - 1]) && IsDigit(s[q]);
    } else if b <= q {
      var k :| 0 <= k < |UNIT_FORMS| && e == b + |UNIT_FORMS[k]| && MatchesAt(s, b, UNIT_FORMS[k]);
      UnitCharIsLetter(s, b, k, q);
    }
  }

  /** The scan from `pos` reports a span exactly when the engine matches there. */
  lemma {:induction false} SpansFromIff(s: string, pos: nat, p: nat, e: nat)
    requires pos <= |s|
    ensures (p, e) in SpansFrom(s, pos) <==> pos <= p <= |s| && MatchAt(s, p) == Some(e)
    decreases |s| - pos
  {
    if pos < |s| {
      match MatchAt(s, pos)
      case Some(e0) =>
        var t := SpansFrom(s, e0);
        assert SpansFrom(s, pos) == [(pos, e0)] + t;
        SpansFromIff(s, e0, p, e);
        if p < e0 {
          assert (p, e) !in t;
          if pos < p {
            NoMatchInside(s, pos, p);
          }
        }
      case None =>
        SpansFromIff(s, pos + 1, p, e);
    }
  }

  /** Each span ends before the next one starts. */
  predicate InOrder(r: seq<(nat, nat)>) {
    forall k | 0 <= k < |r| - 1 :: r[k].1 <= r[k + 1].0
  }

  lemma InOrderCons(x: (nat, nat), t: seq<(nat, nat)>)
    requires InOrder(t) && (t != [] ==> x.1 <= t[0].0)
    ensures InOrder([x] + t)
  {
    var r := [x] + t;
    forall k | 0 <= k < |r| - 1
      ensures r[k].1 <= r[k + 1].0
    {
      assert r[k + 1] == t[k];
      if k > 0 {
        assert r[k] == t[k - 1];
      }
    }
  }

  lemma {:induction false} SpansFromOrdered(s: string, pos: nat)
    requires pos <= |s|
    ensures InOrder(SpansFrom(s, pos))
    decreases |s| - pos
  {
    if pos < |s| {
      match MatchAt(s, pos)
      case Some(e0) =>
        SpansFromOrdered(s, e0);
        InOrderCons((pos, e0), SpansFrom(s, e0));
      case None =>
        SpansFromOrdered(s, pos + 1);
    }
  }

  /** `re.findall` reports exactly the spans the pattern describes, in order and without
      overlap: since no match can start inside another, none is lost to the scan. */
  lemma DurationSpansIff(s: string, p: nat, e: nat)
    ensures (p, e) in DurationSpans(s) <==> DurationAt(s, p, e)
    ensures InOrder(DurationSpans(s))
  {
    SpansFromOrdered(s, 0);
    SpansFromIff(s, 0, p, e);
    if p <= |s| {
      MatchAtIff(s, p, e);
    }
  }

  /** Every text that `re.findall` returns is digits, optional whitespace and a unit. */
  lemma DurationMatchesShape(s: string, k: nat)
    requires k < |DurationMatches(s)|
    ensures exists p: nat, e: nat :: DurationAt(s, p, e) && DurationMatches(s)[k] == s[p..e]
  {
    var spans := DurationSpans(s);
    var p, e := spans[k].0, spans[k].1;
    assert (p, e) in spans;
    DurationSpansIff(s, p, e);
  }

  // ---------------------------------------------------------------------------
  // Properties of `run`

  /** An entity is kept exactly when spaCy reported it with a kept label. */
  lemma {:induction false} KeptEntitiesIff(ents: seq<SpacyEntity>, x: Entity)
    ensures x in KeptEntities(ents) <==> x.kind in KEPT_LABELS && SpacyEntity(x.kind, x.value) in ents
    decreases |ents|
  {
    if ents != [] {
      var n := |ents| - 1;
      KeptEntitiesIff(ents[..n], x);
      assert ents == ents[..n] + [ents[n]];
    }
  }

  /** The filter keeps spaCy's order: it works on each part of a list separately. */
  lemma {:induction false} KeptEntitiesAppend(a: seq<SpacyEntity>, b: seq<SpacyEntity>)
    ensures KeptEntities(a + b) == KeptEntities(a) + KeptEntities(b)
    decreases |b|
  {
    if b == [] {
      assert a + b == a;
    } else {
      var n := |b| - 1;
      assert (a + b)[..|a + b| - 1] == a + b[..n];
      KeptEntitiesAppend(a, b[..n]);
      var x, y, z := KeptEntities(a), KeptEntities(b[..n]), (if Kept(b[n]) then [AsEntity(b[n])] else []);
      assert x + y + z == x + (y + z);
    }
  }

  /** Every entity returned is an `ORG`, `DATE`, `MONEY` or `DURATION`. */
  lemma ExtractedKinds(spacyEnts: seq<SpacyEntity>, document: string, x: Entity)
    requires x in Extracted(spacyEnts, document)
    ensures x.kind in ["ORG", "DATE", "MONEY", "DURATION"]
  {
    KeptEntitiesIff(spacyEnts, x);
  }

  /** Every entity returned that is not a `DURATION` is one that spaCy reported with a
      kept label, and every such spaCy entity is returned. */
  lemma ExtractedOthers(spacyEnts: seq<SpacyEntity>, document: string, x: Entity)
    requires x.kind != "DURATION"
    ensures x in Extracted(spacyEnts, document)
            <==> x.kind in KEPT_LABELS && SpacyEntity(x.kind, x.value) in spacyEnts
  {
    KeptEntitiesIff(spacyEnts, x);
  }

  lemma DurationEntitySound(spacyEnts: seq<SpacyEntity>, document: string, v: string)
    requires Entity("DURATION", v) in Extracted(spacyEnts, document)
    ensures exists p: nat, e: nat :: DurationAt(document, p, e) && document[p..e] == v
  {
    KeptEntitiesIff(spacyEnts, Entity("DURATION", v));
    var ms := DurationMatches(document);
    var k :| 0 <= k < |ms| && DurationEntities(ms)[k] == Entity("DURATION", v);
    DurationMatchesShape(document, k);
  }

  lemma DurationEntityComplete(spacyEnts: seq<SpacyEntity>, document: string, p: nat, e: nat)
    requires DurationAt(document, p, e)
    ensures Entity("DURATION", document[p..e]) in Extracted(spacyEnts, document)
  {
    DurationSpansIff(document, p, e);
    var spans := DurationSpans(document);
    var k :| 0 <= k < |spans| && spans[k] == (p, e);
    var ms := DurationMatches(document);
    assert DurationEntities(ms)[k] == Entity("DURATION", document[p..e]);
  }

  /** A `DURATION` entity is returned exactly for a text that the duration pattern
      matches in the document: spaCy's own `DURATION` entities are never kept. */
  lemma DurationEntityIff(spacyEnts: seq<SpacyEntity>, document: string, v: string)
    ensures Entity("DURATION", v) in Extracted(spacyEnts, document)
            <==> exists p: nat, e: nat :: DurationAt(document, p, e) && document[p..e] == v
  {
    if Entity("DURATION", v) in Extracted(spacyEnts, document) {
      DurationEntitySound(spacyEnts, document, v);
    }
    if exists p: nat, e: nat :: DurationAt(document, p, e) && document[p..e] == v {
      var p: nat, e: nat :| DurationAt(document, p, e) && document[p..e] == v;
      DurationEntityComplete(spacyEnts, document, p, e);
    }
  }

  /** "20 Years" is matched, in any case, and is the whole of what is found. */
  lemma TwentyYears()
    ensures DurationMatches("20 Years") == ["20 Years"]
  {
    var s := "20 Years";
    assert DigitEnd(s, 2) == 2 && DigitEnd(s, 1) == 2 && DigitEnd(s, 0) == 2;
    assert SpaceEnd(s, 3) == 3 && SpaceEnd(s, 2) == 3;
    assert MatchesAt(s, 3, "year");
    assert UnitEnd(s, 3) == Some(7);
    assert PluralEnd(s, 7) == Some(8);
    assert MatchAt(s, 0) == Some(8);
    assert SpansFrom(s, 8) == [];
    assert DurationSpans(s) == [(0, 8)];
    assert s[0..8] == s;
    assert DurationMatches(s)[0] == s;
  }

  /** No match holds a hyphen: the digits, whitespace and unit letters leave no room
      for one, so a hyphenated duration such as "5-year" is never reported. */
  lemma DurationHasNoHyphen(s: string, p: nat, e: nat)
    requires DurationAt(s, p, e)
    ensures forall i | p <= i < e :: s[i] != '-'
  {
    var a: nat, b: nat :| a <= b <= e && DurationShape(s, p, a, b, e);
    var k :| 0 <= k < |UNIT_FORMS| && e == b + |UNIT_FORMS[k]| && MatchesAt(s, b, UNIT_FORMS[k]);
    forall i | b <= i < e
      ensures s[i] != '-'
    {
      UnitCharIsLetter(s, b, k, i);
    }
  }
}
