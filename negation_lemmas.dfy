/** What the negation loop of text_to_concepts computes, and when it raises. */
module NegationLemmas {
  import opened Wrappers
  import opened PyStr
  import opened Seqs
  import opened TextToConcept

  /** Each record's masking step: the working text after record `i` is the one before it with the term replaced. */
  lemma MaskedStep(text: string, recs: seq<TermRecord>, i: nat)
    requires i < |recs|
    ensures Masked(text, recs[..i + 1]) == Replace(Masked(text, recs[..i]), recs[i].term, REMOVED_TAG)
  {
    assert recs[..i + 1][..i] == recs[..i];
  }

  /**
   * What one record's step does to the working text: the text before it is
   * its pieces joined by the record's term, the text after it is the same
   * pieces joined by the tag, and no piece holds the term.
   */
  lemma MaskStepPieces(text: string, recs: seq<TermRecord>, i: nat)
    requires i < |recs| && recs[i].term != []
    ensures var prev := Masked(text, recs[..i]);
      var pieces := Split(prev, recs[i].term);
      prev == Join(pieces, recs[i].term) &&
      Masked(text, recs[..i + 1]) == Join(pieces, REMOVED_TAG) &&
      forall k :: 0 <= k < |pieces| ==> !Contains(pieces[k], recs[i].term)
  {
    MaskedStep(text, recs, i);
    ReplaceOnlyOccurrences(Masked(text, recs[..i]), recs[i].term, REMOVED_TAG);
  }

  /** A successful run found every term in the working text it was looked up in. */
  lemma FoundWhenOk(text: string, recs: seq<TermRecord>, i: nat)
    requires i < |recs|
    ensures Negations(text, recs).Ok? ==> Contains(Masked(text, recs[..i]), recs[i].term)
  {
    if Negations(text, recs).Ok? {
      NegationsPrefix(text, recs, i + 1);
      NegationsOkStep(text, recs[..i + 1]);
      assert recs[..i + 1][..i] == recs[..i];
    }
  }

  /** A failed run has a record whose term is missing from its working text. */
  lemma {:induction false} FailingRecord(text: string, recs: seq<TermRecord>) returns (i: nat)
    requires Negations(text, recs).Err?
    ensures i < |recs| && !Contains(Masked(text, recs[..i]), recs[i].term)
    decreases |recs|
  {
    assert recs != [];
    var n := |recs| - 1;
    NegationsOkStep(text, recs);
    if Negations(text, recs[..n]).Err? {
      i := FailingRecord(text, recs[..n]);
      assert recs[..n][..i] == recs[..i];
    } else {
      i := n;
    }
  }

  /** The loop finishes exactly when every term occurs in the working text it is looked up in. */
  lemma NegationsOkIff(text: string, recs: seq<TermRecord>)
    ensures Negations(text, recs).Ok? <==>
      forall i :: 0 <= i < |recs| ==> Contains(Masked(text, recs[..i]), recs[i].term)
  {
    if Negations(text, recs).Ok? {
      forall i | 0 <= i < |recs|
        ensures Contains(Masked(text, recs[..i]), recs[i].term)
      {
        FoundWhenOk(text, recs, i);
      }
    } else {
      var i := FailingRecord(text, recs);
    }
  }

  /** The first record whose term is missing from its working text makes the loop raise, naming that term. */
  lemma NegationsFirstFailure(text: string, recs: seq<TermRecord>, i: nat)
    requires i < |recs| && !Contains(Masked(text, recs[..i]), recs[i].term)
    requires forall j :: 0 <= j < i ==> Contains(Masked(text, recs[..j]), recs[j].term)
    ensures Negations(text, recs) == Err(SubstringNotFound(recs[i].term))
  {
    var front := recs[..i];
    forall j | 0 <= j < i
      ensures Contains(Masked(text, front[..j]), front[j].term)
    {
      assert front[..j] == recs[..j];
    }
    NegationsOkIff(text, front);
    NegationMarkFails(Masked(text, front), recs[i].term);
    assert recs[..i + 1][..i] == front;
    NegationsUnfold(text, recs[..i + 1]);
    NegationsStopAtError(text, recs, i + 1);
  }

  /** A successful run on the records restricts to a successful run on any prefix of them. */
  lemma {:induction false} NegationsPrefix(text: string, recs: seq<TermRecord>, j: nat)
    requires Negations(text, recs).Ok? && j <= |recs|
    ensures Negations(text, recs[..j]) == Ok(Negations(text, recs).value[..j])
    decreases |recs| - j
  {
    if j == |recs| {
      assert recs[..j] == recs;
      assert Negations(text, recs).value[..j] == Negations(text, recs).value;
    } else {
      var n := |recs| - 1;
      NegationsFront(text, recs);
      NegationsPrefix(text, recs[..n], j);
      assert recs[..n][..j] == recs[..j];
      assert Negations(text, recs).value[..n][..j] == Negations(text, recs).value[..j];
    }
  }

  /**
   * The operator of record `i` is "-" exactly when the character just before
   * the first occurrence of its term, in the lower-cased text with the terms
   * of the earlier records masked, is a hyphen; at position 0 it is "".
   */
  lemma OperatorAt(text: string, recs: seq<TermRecord>, i: nat)
    requires Negations(text, recs).Ok? && i < |recs|
    ensures var w := Masked(text, recs[..i]);
      var op := Negations(text, recs).value[i].operator;
      Contains(w, recs[i].term) && (op == "" || op == "-") &&
      (forall k: nat :: FirstOccurrence(w, recs[i].term, k) ==> (op == "-" <==> 0 < k && w[k - 1] == '-')) &&
      (FirstOccurrence(w, recs[i].term, 0) ==> op == "")
  {
    var cs := Negations(text, recs).value;
    NegationsPrefix(text, recs, i + 1);
    assert recs[..i + 1][..i] == recs[..i];
    NegationsValueStep(text, recs[..i + 1]);
    assert cs[..i + 1][i] == cs[i];
    var w := Masked(text, recs[..i]);
    NegationMarkFails(w, recs[i].term);
    forall k: nat | FirstOccurrence(w, recs[i].term, k)
      ensures cs[i].operator == "-" <==> 0 < k && w[k - 1] == '-'
    {
      NegationMarkAt(w, recs[i].term, k);
    }
  }

  /** Masking never puts an upper-case letter back into the lower-cased text. */
  lemma {:induction false} MaskedLowered(text: string, recs: seq<TermRecord>)
    requires IsLowered(text)
    ensures IsLowered(Masked(text, recs))
    decreases |recs|
  {
    if recs != [] {
      MaskedLowered(text, recs[..|recs| - 1]);
      ReplaceKeepsLowered(Masked(text, recs[..|recs| - 1]), recs[|recs| - 1].term, REMOVED_TAG);
    }
  }

  /** A term that holds an upper-case letter is never found in the lower-cased working text, so the loop raises. */
  lemma UpperCaseTermFails(text: string, recs: seq<TermRecord>, i: nat)
    requires i < |recs| && HasUpper(recs[i].term)
    ensures Negations(Lower(text), recs).Err?
  {
    LowerSpec(text);
    MaskedLowered(Lower(text), recs[..i]);
    LoweredHasNoUpperTerm(Masked(Lower(text), recs[..i]), recs[i].term);
    FoundWhenOk(Lower(text), recs, i);
  }

  /** Once record `i` has masked its term, no later working text holds that term. */
  lemma {:induction false} MaskedStaysFree(text: string, recs: seq<TermRecord>, i: nat, k: nat)
    requires i < k <= |recs|
    requires NoTagOverlap(recs[i].term, REMOVED_TAG)
    ensures !Contains(Masked(text, recs[..k]), recs[i].term)
    decreases k
  {
    MaskedStep(text, recs, k - 1);
    if k == i + 1 {
      MaskRemovesTerm(Masked(text, recs[..i]), recs[i].term, REMOVED_TAG);
    } else {
      MaskedStaysFree(text, recs, i, k - 1);
      MaskKeepsAbsent(Masked(text, recs[..k - 1]), recs[k - 1].term, REMOVED_TAG, recs[i].term);
    }
  }

  /**
   * A term matched twice makes the loop raise, provided the term cannot be
   * rebuilt from the characters of the tag.
   */
  lemma RepeatedTermFails(text: string, recs: seq<TermRecord>, i: nat, j: nat)
    requires i < j < |recs| && recs[i].term == recs[j].term
    requires NoTagOverlap(recs[i].term, REMOVED_TAG)
    ensures Negations(text, recs).Err?
  {
    MaskedStaysFree(text, recs, i, j);
    FoundWhenOk(text, recs, j);
  }

  /**
   * Without that proviso a repeated term can succeed: the term "e" occurs in
   * the tag, so its second lookup finds the "e" of "<removed>" and reads 'r'
   * before it.
   */
  lemma MaskHyphenE(text: string, p: string)
    requires text == "-e" && p == "e"
    ensures Replace(text, p, REMOVED_TAG) == "-" + REMOVED_TAG
  {
    var tail := text[1..];
    assert text[..1][0] == '-' != p[0];
    assert |tail| == 1 && tail[0] == p[0];
    assert tail == p;
    assert tail[..1] == tail && tail[1..] == [];
    assert Replace(tail[1..], p, REMOVED_TAG) == [];
    assert Replace(tail, p, REMOVED_TAG) == REMOVED_TAG + Replace(tail[1..], p, REMOVED_TAG);
    assert Replace(text, p, REMOVED_TAG) == [text[0]] + Replace(tail, p, REMOVED_TAG);
  }

  /** The loop on a single record: masked text and outcome. */
  lemma SingleRecord(text: string, r: TermRecord)
    ensures Masked(text, [r]) == Replace(text, r.term, REMOVED_TAG)
    ensures Negations(text, [r]) == match NegationMark(text, r.term)
      case Err(e) => Err(e)
      case Ok(op) => Ok([Classified(r, op)])
  {
    assert [r][..0] == [];
    assert Masked(text, [r]) == Replace(Masked(text, [r][..0]), [r][0].term, REMOVED_TAG);
    assert Masked(text, []) == text;
    assert Negations(text, []) == Ok([]);
    NegationsUnfold(text, [r]);
    if NegationMark(text, r.term).Ok? {
      var c := Classified(r, NegationMark(text, r.term).value);
      assert [] + [c] == [c];
    }
  }

  /** "e" is first found at 1 in "-e", after a hyphen. */
  lemma FirstLookup(text: string, p: string)
    requires text == "-e" && p == "e"
    ensures NegationMark(text, p) == Ok("-")
  {
    OccursAtChar(text, 'e', 0);
    OccursAtChar(text, 'e', 1);
    NegationMarkAt(text, p, 1);
  }

  /** "e" is first found at 3 in "-<removed>", after 'r'. */
  lemma SecondLookup(text: string, p: string)
    requires text == "-" + REMOVED_TAG && p == "e"
    ensures NegationMark(text, p) == Ok("")
  {
    OccursAtChar(text, 'e', 0);
    OccursAtChar(text, 'e', 1);
    OccursAtChar(text, 'e', 2);
    OccursAtChar(text, 'e', 3);
    NegationMarkAt(text, p, 3);
  }

  lemma RepeatedTermInsideTag(e: TermRecord, text: string)
    requires e.term == "e" && text == "-e"
    ensures Negations(text, [e, e]) == Ok([Classified(e, "-"), Classified(e, "")])
  {
    var second := "-" + REMOVED_TAG;
    FirstLookup(text, e.term);
    SingleRecord(text, e);
    MaskHyphenE(text, e.term);
    SecondLookup(second, e.term);
    assert [e, e][..1] == [e];
    NegationsUnfold(text, [e, e]);
    assert [Classified(e, "-")] + [Classified(e, "")] == [Classified(e, "-"), Classified(e, "")];
  }
}
