/**
 * The concept classification of TextToConcept: the records the keyword
 * matcher found in a text get a negation operator from the character before
 * their first occurrence in a masked working copy of the text, and are then
 * split by concept type and operator into six lists of concept labels.
 */
module TextToConcept {
  import opened Wrappers
  import opened PyStr
  import opened Seqs

  const COMPETENCE_KEY: string := "KOMPETENS"
  const OCCUPATION_KEY: string := "YRKE"
  const TRAIT_KEY: string := "FORMAGA"
  const REMOVED_TAG: string := "<removed>"

  /** The keys of the dictionary text_to_concepts returns. */
  const RESULT_KEYS: set<string> :=
    {"skills", "occupations", "traits", "skills_must_not", "occupations_must_not", "traits_must_not"}

  /** An ontology term record, as loaded from the ontology and returned by the keyword matcher. */
  datatype TermRecord = TermRecord(term: string, concept: string, ctype: string)

  /** A term record after the negation loop has written its operator. */
  datatype Classified = Classified(record: TermRecord, operator: string)

  /** A match with its character span, as the matcher returns it when asked for span info. */
  datatype Span = Span(record: TermRecord, start: nat, end: nat)

  /** What the keyword matcher returns: plain records, or (record, start, end) triples. */
  datatype Keywords = Plain(records: seq<TermRecord>) | WithSpans(spans: seq<Span>)

  /** The ValueError str.index raises when the term is not in the working text. */
  datatype Error = SubstringNotFound(term: string)

  // ---------------------------------------------------------------------------
  // _get_concepts
  // ---------------------------------------------------------------------------

  function OfType(t: string): TermRecord -> bool {
    (c: TermRecord) => c.ctype == t
  }

  function SpanOfType(t: string): Span -> bool {
    (s: Span) => s.record.ctype == t
  }

  /**
   * The matcher output, unchanged without a concept type, otherwise the
   * matches of that type in their original order.
   */
  function GetConcepts(found: Keywords, conceptType: Option<string>): (r: Keywords)
    ensures conceptType.None? ==> r == found
    ensures r.Plain? <==> found.Plain?
    ensures conceptType.Some? && r.Plain? ==>
      IsSubsequence(r.records, found.records) &&
      forall x :: multiset(r.records)[x] == if x.ctype == conceptType.value then multiset(found.records)[x] else 0
    ensures conceptType.Some? && r.WithSpans? ==>
      IsSubsequence(r.spans, found.spans) &&
      forall x :: multiset(r.spans)[x] == if x.record.ctype == conceptType.value then multiset(found.spans)[x] else 0
  {
    match conceptType
    case None => found
    case Some(t) =>
      match found
      case Plain(rs) =>
        FilterIsSubsequence(rs, OfType(t));
        FilterCounts(rs, OfType(t));
        Plain(Filter(rs, OfType(t)))
      case WithSpans(ss) =>
        FilterIsSubsequence(ss, SpanOfType(t));
        FilterCounts(ss, SpanOfType(t));
        WithSpans(Filter(ss, SpanOfType(t)))
  }

  // ---------------------------------------------------------------------------
  // Negation: the operator of one record, and of all records in match order
  // ---------------------------------------------------------------------------

  /**
   * The operator of a record whose term is looked up in the working text
   * `tmp`: "-" when the character just before the term's first occurrence is
   * a hyphen, "" otherwise, and an error when the term does not occur.
   */
  function NegationMark(tmp: string, term: string): (r: Result<string, Error>)
    ensures r.Err? ==> r.error == SubstringNotFound(term)
    ensures r.Ok? ==> r.value == "" || r.value == "-"
  {
    match IndexOf(tmp, term)
    case None => Err(SubstringNotFound(term))
    case Some(k) =>
      var termIndex := k - 1;
      var prevChar := PySlice(tmp, termIndex, termIndex + 1);
      Ok(if prevChar == "-" then prevChar else "")
  }

  /** The lookup raises exactly when the term does not occur in the working text. */
  lemma NegationMarkFails(tmp: string, term: string)
    ensures NegationMark(tmp, term).Err? <==> !Contains(tmp, term)
  {
    IndexOfSpec(tmp, term);
  }

  /**
   * Read at the term's first occurrence `i`: the operator is "-" exactly when
   * the character before it is a hyphen, and a term at position 0 has none.
   */
  lemma NegationMarkAt(tmp: string, term: string, i: nat)
    requires FirstOccurrence(tmp, term, i)
    ensures NegationMark(tmp, term) == Ok(if 0 < i && tmp[i - 1] == '-' then "-" else "")
    ensures i == 0 ==> NegationMark(tmp, term) == Ok("")
  {
    IndexOfSpec(tmp, term);
    FirstOccurrenceUnique(tmp, term, i, IndexOf(tmp, term).value);
    SliceBefore(tmp, i);
  }

  /** The working text once the terms of `recs` have been masked, in order, with the tag. */
  function Masked(text: string, recs: seq<TermRecord>): string
    decreases |recs|
  {
    if recs == [] then text
    else Replace(Masked(text, recs[..|recs| - 1]), recs[|recs| - 1].term, REMOVED_TAG)
  }

  /**
   * The negation loop: each record, in match order, gets its operator from
   * the working text in which the terms of the records before it are masked.
   */
  function Negations(text: string, recs: seq<TermRecord>): (r: Result<seq<Classified>, Error>)
    ensures r.Ok? ==> |r.value| == |recs|
    decreases |recs|
  {
    if recs == [] then Ok([])
    else
      var n := |recs| - 1;
      match Negations(text, recs[..n])
      case Err(e) => Err(e)
      case Ok(cs) =>
        match NegationMark(Masked(text, recs[..n]), recs[n].term)
        case Err(e) => Err(e)
        case Ok(op) => Ok(cs + [Classified(recs[n], op)])
  }

  lemma NegationsUnfold(text: string, recs: seq<TermRecord>)
    requires recs != []
    ensures var n := |recs| - 1;
      Negations(text, recs) ==
        match Negations(text, recs[..n])
        case Err(e) => Err(e)
        case Ok(cs) =>
          match NegationMark(Masked(text, recs[..n]), recs[n].term)
          case Err(e) => Err(e)
          case Ok(op) => Ok(cs + [Classified(recs[n], op)])
  {
  }

  /** The loop gets past the last record exactly when it got past the others and the last term occurs. */
  lemma NegationsOkStep(text: string, recs: seq<TermRecord>)
    requires recs != []
    ensures var n := |recs| - 1;
      Negations(text, recs).Ok? <==>
        Negations(text, recs[..n]).Ok? && Contains(Masked(text, recs[..n]), recs[n].term)
  {
    NegationsUnfold(text, recs);
    NegationMarkFails(Masked(text, recs[..|recs| - 1]), recs[|recs| - 1].term);
  }

  lemma NegationsValueStep(text: string, recs: seq<TermRecord>)
    requires recs != [] && Negations(text, recs).Ok?
    ensures var n := |recs| - 1;
      Negations(text, recs[..n]).Ok? &&
      NegationMark(Masked(text, recs[..n]), recs[n].term).Ok? &&
      Negations(text, recs).value ==
        Negations(text, recs[..n]).value + [Classified(recs[n], NegationMark(Masked(text, recs[..n]), recs[n].term).value)]
  {
    NegationsUnfold(text, recs);
  }

  /** One turn of the loop: record `i` is looked up in, then masked in, the working text left by the records before it. */
  lemma NegationsExtend(text: string, recs: seq<TermRecord>, i: nat, tmp: string, cs: seq<Classified>)
    requires i < |recs| && tmp == Masked(text, recs[..i]) && Negations(text, recs[..i]) == Ok(cs)
    ensures Masked(text, recs[..i + 1]) == Replace(tmp, recs[i].term, REMOVED_TAG)
    ensures Negations(text, recs[..i + 1]) ==
      match NegationMark(tmp, recs[i].term)
      case Err(e) => Err(e)
      case Ok(op) => Ok(cs + [Classified(recs[i], op)])
  {
    assert recs[..i + 1][..i] == recs[..i];
    NegationsUnfold(text, recs[..i + 1]);
  }

  /** A successful run begins with the run on all records but the last. */
  lemma NegationsFront(text: string, recs: seq<TermRecord>)
    requires recs != [] && Negations(text, recs).Ok?
    ensures Negations(text, recs[..|recs| - 1]).Ok?
    ensures Negations(text, recs).value[..|recs| - 1] == Negations(text, recs[..|recs| - 1]).value
  {
    NegationsValueStep(text, recs);
  }

  /** A successful run ends with the last record, classified with "" or "-". */
  lemma NegationsLast(text: string, recs: seq<TermRecord>)
    requires recs != [] && Negations(text, recs).Ok?
    ensures var c := Negations(text, recs).value[|recs| - 1];
      c.record == recs[|recs| - 1] && (c.operator == "" || c.operator == "-")
  {
    NegationsValueStep(text, recs);
  }

  /** `cs` holds the records of `recs`, in order, each with the operator "" or "-". */
  predicate ClassifiesEach(recs: seq<TermRecord>, cs: seq<Classified>) {
    |cs| == |recs| &&
    forall i :: 0 <= i < |recs| ==> cs[i].record == recs[i] && (cs[i].operator == "" || cs[i].operator == "-")
  }

  lemma ClassifiesEachExtend(recs: seq<TermRecord>, cs: seq<Classified>)
    requires recs != [] && |cs| == |recs| && ClassifiesEach(recs[..|recs| - 1], cs[..|cs| - 1])
    requires cs[|cs| - 1].record == recs[|recs| - 1]
    requires cs[|cs| - 1].operator == "" || cs[|cs| - 1].operator == "-"
    ensures ClassifiesEach(recs, cs)
  {
    var n := |recs| - 1;
    forall i | 0 <= i < n
      ensures cs[i].record == recs[i] && (cs[i].operator == "" || cs[i].operator == "-")
    {
      assert cs[..n][i] == cs[i];
      assert recs[..n][i] == recs[i];
    }
  }

  /** A successful run classifies every record, in order, with the operator "" or "-". */
  lemma {:induction false} NegationsClassifyEach(text: string, recs: seq<TermRecord>)
    requires Negations(text, recs).Ok?
    ensures ClassifiesEach(recs, Negations(text, recs).value)
    decreases |recs|
  {
    if recs != [] {
      var n := |recs| - 1;
      NegationsFront(text, recs);
      NegationsLast(text, recs);
      NegationsClassifyEach(text, recs[..n]);
      ClassifiesEachExtend(recs, Negations(text, recs).value);
    }
  }

  /** Once a prefix of the records fails, the whole loop fails with the same error. */
  lemma {:induction false} NegationsStopAtError(text: string, recs: seq<TermRecord>, i: nat)
    requires i <= |recs| && Negations(text, recs[..i]).Err?
    ensures Negations(text, recs) == Negations(text, recs[..i])
    decreases |recs| - i
  {
    if i < |recs| {
      var n := |recs| - 1;
      assert recs[..n][..i] == recs[..i];
      NegationsStopAtError(text, recs[..n], i);
      assert Negations(text, recs[..n]).Err?;
      NegationsUnfold(text, recs);
    } else {
      assert recs[..i] == recs;
    }
  }

  // ---------------------------------------------------------------------------
  // _filter_concepts and the six lists
  // ---------------------------------------------------------------------------

  function FilterConcepts(c: Classified, conceptType: string, operator: string): bool {
    c.record.ctype == conceptType && c.operator == operator
  }

  function Selects(conceptType: string, operator: string): Classified -> bool {
    (c: Classified) => FilterConcepts(c, conceptType, operator)
  }

  function ConceptLabel(c: Classified): string {
    Lower(c.record.concept)
  }

  /** `[c['concept'].lower() for c in cs if _filter_concepts(c, conceptType, operator)]`. */
  function Labels(cs: seq<Classified>, conceptType: string, operator: string): seq<string> {
    MapSeq(Filter(cs, Selects(conceptType, operator)), ConceptLabel)
  }

  /**
   * The list of the result dictionary that a classified record belongs to:
   * the (type, operator) pair read as one of the six keys, None for every
   * other type or operator.
   */
  function ResultKey(c: Classified): (r: Option<string>)
    ensures r.Some? ==> r.value in RESULT_KEYS
    ensures (c.operator == "" || c.operator == "-") ==>
      (r.Some? <==> c.record.ctype in {COMPETENCE_KEY, OCCUPATION_KEY, TRAIT_KEY})
    ensures r.Some? ==> (c.operator == "-" <==> r.value in {"skills_must_not", "occupations_must_not", "traits_must_not"})
  {
    var t := c.record.ctype;
    if c.operator == "" then
      if t == COMPETENCE_KEY then Some("skills")
      else if t == OCCUPATION_KEY then Some("occupations")
      else if t == TRAIT_KEY then Some("traits")
      else None
    else if c.operator == "-" then
      if t == COMPETENCE_KEY then Some("skills_must_not")
      else if t == OCCUPATION_KEY then Some("occupations_must_not")
      else if t == TRAIT_KEY then Some("traits_must_not")
      else None
    else None
  }

  /** The result dictionary: six lists, one per concept type and operator. */
  function Aggregate(cs: seq<Classified>): (r: map<string, seq<string>>)
    ensures r.Keys == RESULT_KEYS
    ensures cs == [] ==> forall k :: k in r ==> r[k] == []
  {
    assert cs == [] ==> Filter(cs, Selects(COMPETENCE_KEY, "")) == [];
    map[
      "skills" := Labels(cs, COMPETENCE_KEY, ""),
      "occupations" := Labels(cs, OCCUPATION_KEY, ""),
      "traits" := Labels(cs, TRAIT_KEY, ""),
      "skills_must_not" := Labels(cs, COMPETENCE_KEY, "-"),
      "occupations_must_not" := Labels(cs, OCCUPATION_KEY, "-"),
      "traits_must_not" := Labels(cs, TRAIT_KEY, "-")
    ]
  }

  /** text_to_concepts as a function of the text and of what the matcher found in it. */
  function ExtractConcepts(text: string, found: seq<TermRecord>): (r: Result<map<string, seq<string>>, Error>)
    ensures r.Ok? ==> r.value.Keys == RESULT_KEYS
    ensures found == [] ==> r.Ok? && forall k :: k in r.value ==> r.value[k] == []
  {
    match Negations(Lower(text), GetConcepts(Plain(found), None).records)
    case Err(e) => Err(e)
    case Ok(cs) => Ok(Aggregate(cs))
  }

  /**
   * text_to_concepts: the negation loop over the matcher's records, which
   * masks each term in the working text, then the six-way split.
   */
  method TextToConcepts(text: string, found: seq<TermRecord>) returns (r: Result<map<string, seq<string>>, Error>)
    ensures r == ExtractConcepts(text, found)
    ensures r.Ok? ==> r.value.Keys == RESULT_KEYS
  {
    var ontologyConcepts := GetConcepts(Plain(found), None).records;
    var textLower := Lower(text);
    var tmpText := textLower;
    var classified: seq<Classified> := [];
    var i := 0;
    while i < |ontologyConcepts|
      invariant 0 <= i <= |ontologyConcepts|
      invariant tmpText == Masked(textLower, ontologyConcepts[..i])
      invariant Negations(textLower, ontologyConcepts[..i]) == Ok(classified)
    {
      var concept := ontologyConcepts[i];
      var term := concept.term;
      NegationsExtend(textLower, ontologyConcepts, i, tmpText, classified);
      var index := IndexOf(tmpText, term);
      if index.None? {
        NegationsStopAtError(textLower, ontologyConcepts, i + 1);
        return Err(SubstringNotFound(term));
      }
      var termIndex := index.value - 1;
      var prevChar := PySlice(tmpText, termIndex, termIndex + 1);
      tmpText := Replace(tmpText, term, REMOVED_TAG);
      classified := classified + [Classified(concept, if prevChar == "-" then prevChar else "")];
      i := i + 1;
    }
    assert ontologyConcepts[..i] == ontologyConcepts;
    r := Ok(Aggregate(classified));
  }

  // ---------------------------------------------------------------------------
  // The concept_to_term grouping of _init_keyword_processor
  // ---------------------------------------------------------------------------

  function InBucket(key: string): TermRecord -> bool {
    (t: TermRecord) => Lower(t.concept) == key
  }

  /** The lower-cased concept labels of `terms`. */
  ghost function ConceptKeys(terms: seq<TermRecord>): set<string> {
    set t | t in terms :: Lower(t.concept)
  }

  lemma ConceptKeysAppend(terms: seq<TermRecord>, t: TermRecord)
    ensures ConceptKeys(terms + [t]) == ConceptKeys(terms) + {Lower(t.concept)}
  {
    assert forall x :: x in terms + [t] <==> x in terms || x == t;
  }

  /** Every label outside ConceptKeys has an empty bucket. */
  lemma AbsentKeyEmptyBucket(terms: seq<TermRecord>, key: string)
    requires key !in ConceptKeys(terms)
    ensures Filter(terms, InBucket(key)) == []
  {
    forall i | 0 <= i < |terms| ensures !InBucket(key)(terms[i]) {
      assert terms[i] in terms;
    }
    FilterNothing(terms, InBucket(key));
  }

  /** `buckets` holds, for each of its keys, the records of `terms` with that label, in order. */
  ghost predicate Grouped(buckets: map<string, seq<TermRecord>>, terms: seq<TermRecord>) {
    buckets.Keys == ConceptKeys(terms) &&
    forall key :: key in buckets ==> buckets[key] == Filter(terms, InBucket(key))
  }

  /** `buckets` with `t` appended to the bucket of its label, opened empty when missing. */
  ghost function Regrouped(buckets: map<string, seq<TermRecord>>, t: TermRecord): map<string, seq<TermRecord>> {
    var key := Lower(t.concept);
    buckets[key := (if key in buckets then buckets[key] else []) + [t]]
  }

  lemma OverwriteKey(m: map<string, seq<TermRecord>>, key: string, a: seq<TermRecord>, b: seq<TermRecord>)
    ensures m[key := a][key := a + b] == m[key := a + b]
  {
  }

  lemma GroupedStep(buckets: map<string, seq<TermRecord>>, terms: seq<TermRecord>, t: TermRecord)
    requires Grouped(buckets, terms)
    ensures Grouped(Regrouped(buckets, t), terms + [t])
  {
    var key := Lower(t.concept);
    ConceptKeysAppend(terms, t);
    var old_bucket := if key in buckets then buckets[key] else [];
    assert old_bucket == Filter(terms, InBucket(key)) by {
      if key !in buckets {
        AbsentKeyEmptyBucket(terms, key);
      }
    }
    var next := buckets[key := old_bucket + [t]];
    assert next.Keys == ConceptKeys(terms + [t]);
    forall other | other in next
      ensures next[other] == Filter(terms + [t], InBucket(other))
    {
      FilterAppend(terms, t, InBucket(other));
      if other == key {
        assert InBucket(other)(t);
      } else {
        assert !InBucket(other)(t);
        assert next[other] == buckets[other];
      }
    }
  }

  lemma GroupedBuckets(buckets: map<string, seq<TermRecord>>, terms: seq<TermRecord>)
    requires Grouped(buckets, terms)
    ensures forall key :: key in buckets ==>
      IsSubsequence(buckets[key], terms) &&
      forall x :: multiset(buckets[key])[x] == if Lower(x.concept) == key then multiset(terms)[x] else 0
  {
    forall key | key in buckets
      ensures IsSubsequence(buckets[key], terms)
      ensures forall x :: multiset(buckets[key])[x] == if Lower(x.concept) == key then multiset(terms)[x] else 0
    {
      FilterIsSubsequence(terms, InBucket(key));
      FilterCounts(terms, InBucket(key));
    }
  }

  /** The grouping of `terms`, one record at a time in load order. */
  ghost function Grouping(terms: seq<TermRecord>): map<string, seq<TermRecord>>
    decreases |terms|
  {
    if terms == [] then map[]
    else Regrouped(Grouping(terms[..|terms| - 1]), terms[|terms| - 1])
  }

  lemma {:induction false} GroupingIsGrouped(terms: seq<TermRecord>)
    ensures Grouped(Grouping(terms), terms)
    decreases |terms|
  {
    if terms == [] {
      assert ConceptKeys(terms) == {};
    } else {
      var n := |terms| - 1;
      GroupingIsGrouped(terms[..n]);
      GroupedStep(Grouping(terms[..n]), terms[..n], terms[n]);
      assert terms[..n] + [terms[n]] == terms;
    }
  }

  /**
   * The loop of _init_keyword_processor that groups the loaded term records
   * by lower-cased concept label. Without a client nothing is loaded.
   */
  method GroupByConcept(hasClient: bool, terms: seq<TermRecord>) returns (conceptToTerm: map<string, seq<TermRecord>>)
    ensures !hasClient ==> conceptToTerm == map[]
    ensures hasClient ==> conceptToTerm == Grouping(terms)
    ensures hasClient ==> conceptToTerm.Keys == ConceptKeys(terms)
    ensures hasClient ==> forall key :: key in conceptToTerm ==>
      IsSubsequence(conceptToTerm[key], terms) &&
      forall x :: multiset(conceptToTerm[key])[x] == if Lower(x.concept) == key then multiset(terms)[x] else 0
  {
    conceptToTerm := map[];
    if hasClient {
      var i := 0;
      while i < |terms|
        invariant 0 <= i <= |terms|
        invariant conceptToTerm == Grouping(terms[..i])
      {
        var termObj := terms[i];
        assert terms[..i + 1][..i] == terms[..i];
        var key := Lower(termObj.concept);
        ghost var before := conceptToTerm;
        if key !in conceptToTerm {
          conceptToTerm := conceptToTerm[key := []];
        }
        conceptToTerm := conceptToTerm[key := conceptToTerm[key] + [termObj]];
        if key !in before {
          OverwriteKey(before, key, [], [termObj]);
        }
        assert conceptToTerm == Regrouped(before, termObj);
        i := i + 1;
      }
      assert terms[..i] == terms;
      GroupingIsGrouped(terms);
      GroupedBuckets(conceptToTerm, terms);
    }
  }
}
