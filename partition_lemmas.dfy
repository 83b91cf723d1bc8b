/** What the six lists of text_to_concepts hold, and that they partition the matched records. */
module PartitionLemmas {
  import opened Wrappers
  import opened PyStr
  import opened Seqs
  import opened TextToConcept

  function HasResultKey(key: string): Classified -> bool {
    (c: Classified) => ResultKey(c) == Some(key)
  }

  function Listed(c: Classified): bool {
    ResultKey(c).Some?
  }

  /**
   * A label is in the list for a type and operator exactly when some record
   * of that type with that operator has it as its lower-cased concept.
   */
  lemma LabelsMembership(cs: seq<Classified>, conceptType: string, operator: string, x: string)
    ensures x in Labels(cs, conceptType, operator) <==>
      exists i :: 0 <= i < |cs| && cs[i].record.ctype == conceptType && cs[i].operator == operator &&
        Lower(cs[i].record.concept) == x
  {
    MapFilterMembership(cs, Selects(conceptType, operator), ConceptLabel, x);
  }

  /** Each list keeps match order and duplicates: it is a subsequence of all the labels. */
  lemma LabelsInMatchOrder(cs: seq<Classified>, conceptType: string, operator: string)
    ensures IsSubsequence(Labels(cs, conceptType, operator), MapSeq(cs, ConceptLabel))
  {
    FilterIsSubsequence(cs, Selects(conceptType, operator));
    MapKeepsSubsequence(Filter(cs, Selects(conceptType, operator)), cs, ConceptLabel);
  }

  lemma DistinctNames()
    ensures COMPETENCE_KEY != OCCUPATION_KEY && COMPETENCE_KEY != TRAIT_KEY && OCCUPATION_KEY != TRAIT_KEY
    ensures "" != "-"
  {
    assert COMPETENCE_KEY[0] != OCCUPATION_KEY[0];
    assert COMPETENCE_KEY[0] != TRAIT_KEY[0];
    assert OCCUPATION_KEY[0] != TRAIT_KEY[0];
  }

  /** The six result keys are pairwise different. */
  lemma DistinctKeys()
    ensures "skills" != "occupations" && "skills" != "traits" && "occupations" != "traits"
    ensures "skills_must_not" != "occupations_must_not" && "skills_must_not" != "traits_must_not"
    ensures "occupations_must_not" != "traits_must_not"
    ensures "skills" != "skills_must_not" && "skills" != "occupations_must_not" && "skills" != "traits_must_not"
    ensures "occupations" != "skills_must_not" && "occupations" != "occupations_must_not"
    ensures "occupations" != "traits_must_not"
    ensures "traits" != "skills_must_not" && "traits" != "occupations_must_not" && "traits" != "traits_must_not"
  {
    assert |"skills"| == 6 && |"traits"| == 6 && |"occupations"| == 11;
    assert |"skills_must_not"| == 15 && |"traits_must_not"| == 15 && |"occupations_must_not"| == 20;
    assert "skills"[0] != "traits"[0];
    assert "skills_must_not"[0] != "traits_must_not"[0];
  }

  /** Which (type, operator) pair each result key stands for. */
  lemma ResultKeyMeans(c: Classified)
    ensures ResultKey(c) == Some("skills") <==> FilterConcepts(c, COMPETENCE_KEY, "")
    ensures ResultKey(c) == Some("occupations") <==> FilterConcepts(c, OCCUPATION_KEY, "")
    ensures ResultKey(c) == Some("traits") <==> FilterConcepts(c, TRAIT_KEY, "")
    ensures ResultKey(c) == Some("skills_must_not") <==> FilterConcepts(c, COMPETENCE_KEY, "-")
    ensures ResultKey(c) == Some("occupations_must_not") <==> FilterConcepts(c, OCCUPATION_KEY, "-")
    ensures ResultKey(c) == Some("traits_must_not") <==> FilterConcepts(c, TRAIT_KEY, "-")
  {
    DistinctNames();
    DistinctKeys();
  }

  /** The type and operator whose records a result key collects. */
  predicate KeyFor(key: string, conceptType: string, operator: string) {
    (key == "skills" && conceptType == COMPETENCE_KEY && operator == "") ||
    (key == "occupations" && conceptType == OCCUPATION_KEY && operator == "") ||
    (key == "traits" && conceptType == TRAIT_KEY && operator == "") ||
    (key == "skills_must_not" && conceptType == COMPETENCE_KEY && operator == "-") ||
    (key == "occupations_must_not" && conceptType == OCCUPATION_KEY && operator == "-") ||
    (key == "traits_must_not" && conceptType == TRAIT_KEY && operator == "-")
  }

  lemma SelectsAgree(c: Classified, key: string, conceptType: string, operator: string)
    requires KeyFor(key, conceptType, operator)
    ensures Selects(conceptType, operator)(c) == HasResultKey(key)(c)
  {
    ResultKeyMeans(c);
  }

  /** The list for a type and operator is the list of the records ResultKey sends to its key. */
  lemma SameSelection(cs: seq<Classified>, key: string, conceptType: string, operator: string)
    requires KeyFor(key, conceptType, operator)
    ensures Labels(cs, conceptType, operator) == MapSeq(Filter(cs, HasResultKey(key)), ConceptLabel)
  {
    forall i | 0 <= i < |cs| ensures Selects(conceptType, operator)(cs[i]) == HasResultKey(key)(cs[i]) {
      SelectsAgree(cs[i], key, conceptType, operator);
    }
    FilterAgrees(cs, Selects(conceptType, operator), HasResultKey(key));
  }

  lemma AggregateLookups(cs: seq<Classified>)
    ensures Aggregate(cs)["skills"] == Labels(cs, COMPETENCE_KEY, "")
    ensures Aggregate(cs)["occupations"] == Labels(cs, OCCUPATION_KEY, "")
    ensures Aggregate(cs)["traits"] == Labels(cs, TRAIT_KEY, "")
    ensures Aggregate(cs)["skills_must_not"] == Labels(cs, COMPETENCE_KEY, "-")
    ensures Aggregate(cs)["occupations_must_not"] == Labels(cs, OCCUPATION_KEY, "-")
    ensures Aggregate(cs)["traits_must_not"] == Labels(cs, TRAIT_KEY, "-")
  {
    DistinctKeys();
  }

  /** Every list of the result holds the labels of exactly the records ResultKey sends to it. */
  lemma AggregateByResultKey(cs: seq<Classified>, key: string)
    requires key in RESULT_KEYS
    ensures Aggregate(cs)[key] == MapSeq(Filter(cs, HasResultKey(key)), ConceptLabel)
  {
    AggregateLookups(cs);
    if key == "skills" {
      SameSelection(cs, key, COMPETENCE_KEY, "");
    } else if key == "occupations" {
      SameSelection(cs, key, OCCUPATION_KEY, "");
    } else if key == "traits" {
      SameSelection(cs, key, TRAIT_KEY, "");
    } else if key == "skills_must_not" {
      SameSelection(cs, key, COMPETENCE_KEY, "-");
    } else if key == "occupations_must_not" {
      SameSelection(cs, key, OCCUPATION_KEY, "-");
    } else {
      SameSelection(cs, key, TRAIT_KEY, "-");
    }
  }

  /**
   * A label is in a list of the result exactly when some record that belongs
   * to that list (by its type and operator) has it as its concept label.
   */
  lemma AggregateMembership(cs: seq<Classified>, key: string, x: string)
    requires key in RESULT_KEYS
    ensures x in Aggregate(cs)[key] <==>
      exists i :: 0 <= i < |cs| && ResultKey(cs[i]) == Some(key) && Lower(cs[i].record.concept) == x
  {
    AggregateByResultKey(cs, key);
    MapFilterMembership(cs, HasResultKey(key), ConceptLabel, x);
  }

  /** The six lists together have one entry per record that belongs to some list. */
  lemma {:induction false} AggregateSizes(cs: seq<Classified>)
    ensures var r := Aggregate(cs);
      |r["skills"]| + |r["occupations"]| + |r["traits"]| +
      |r["skills_must_not"]| + |r["occupations_must_not"]| + |r["traits_must_not"]|
      == |Filter(cs, Listed)|
  {
    AggregateByResultKey(cs, "skills");
    AggregateByResultKey(cs, "occupations");
    AggregateByResultKey(cs, "traits");
    AggregateByResultKey(cs, "skills_must_not");
    AggregateByResultKey(cs, "occupations_must_not");
    AggregateByResultKey(cs, "traits_must_not");
    SizesByKey(cs);
  }

  lemma {:induction false} SizesByKey(cs: seq<Classified>)
    ensures
      |Filter(cs, HasResultKey("skills"))| + |Filter(cs, HasResultKey("occupations"))| +
      |Filter(cs, HasResultKey("traits"))| + |Filter(cs, HasResultKey("skills_must_not"))| +
      |Filter(cs, HasResultKey("occupations_must_not"))| + |Filter(cs, HasResultKey("traits_must_not"))|
      == |Filter(cs, Listed)|
  {
    if cs != [] {
      SizesByKey(cs[1..]);
    }
  }
}
