# Concept classification of `TextToConcept`

This project models the classification step of the job-ad search service's
`TextToConcept` class (`sokannonser/repository/text_to_concept.py`). A keyword
matcher finds, in a free-text query, ontology term records (`term`, `concept`,
`type`). `text_to_concepts` then does two things:

- It gives each record a negation operator. The record's term is looked up
  with `str.index` in a lower-cased working copy of the text. The operator is
  `'-'` when the character just before that first occurrence is a hyphen, and
  `''` otherwise. After each lookup, every occurrence of the term in the
  working copy is replaced by the tag `<removed>`.
- It splits the records into six lists of lower-cased concept labels:
  `skills`, `occupations` and `traits` (types `KOMPETENS`, `YRKE` and
  `FORMAGA` with operator `''`), and the three `_must_not` lists (the same
  types with operator `'-'`).

The project also models two smaller pieces:

- `_get_concepts`: the optional type filter on the matcher output.
- The `concept_to_term` loop of `_init_keyword_processor`: it groups the
  loaded term records by lower-cased concept label.

Modules:

- `Wrappers`: Option and Result.
- `PyStr`: the Python builtins the code relies on, over `seq<char>`:
  - `str.lower` (`Lower`);
  - `str.index` (`IndexOf`, `None` where Python raises `ValueError`);
  - slicing with negative bounds (`PySlice`);
  - `str.replace` (`Replace`, left to right and non-overlapping; an empty
    pattern inserts the replacement around every character).
- `Seqs`: list comprehensions and `filter` (`Filter`, `MapSeq`), and
  the subsequence relation.
- `TextToConcept`: the records and the matcher output.
  - `GetConcepts`, `FilterConcepts` and the six lists (`Labels`,
    `Aggregate`).
  - The negation loop as a function (`Negations`, over the working texts
    `Masked`) and as the method `TextToConcepts`, proved equal to it.
  - The grouping loop as the method `GroupByConcept`, proved equal to the
    function `Grouping`.
- `NegationLemmas`: when the negation loop finishes or raises, and what
  each operator means.
- `PartitionLemmas`: what the six lists hold and how they partition the
  classified records.

Behaviour of the code worth knowing:

- The result holds lists in match order, with duplicates kept. They are
  not sets.
- The operator is read at the term's first occurrence in the masked
  working text, not at the match's own span.
- A term that an earlier record has already masked makes `str.index` raise
  (`ValueError`), so the whole call fails. The matches do not merely
  collapse. `RepeatedTermFails` proves this whenever the term cannot be
  rebuilt from the characters of `<removed>`.
- A term that the tag itself contains (for example `e`) is found again
  inside the tag. `RepeatedTermInsideTag` shows that the matches `e`, `e` on
  the text `-e` do not raise, and that the loop writes `'-'` at the first
  turn and `''` at the second. In the code, both matches are the same
  dictionary, so the last write wins. Both entries then read `''`, and the
  call gives `skills == ["e", "e"]` and an empty `skills_must_not`. The
  model keeps one operator per match, so it gives `skills == ["e"]` and
  `skills_must_not == ["e"]`. See "## Left out".

## Model

| member | source | states |
|---|---|---|
| PyStr.LowerSpec | sokannonser/repository/text_to_concept.py:49 | lower-casing maps each character on its own, leaves no upper-case letter, and leaves a lower-case string unchanged |
| PyStr.LowerIdempotent | sokannonser/repository/text_to_concept.py:49 | lowering twice is lowering once |
| PyStr.IndexOfSpec | sokannonser/repository/text_to_concept.py:57 | `str.index` returns the leftmost occurrence, and fails exactly when the term does not occur |
| PyStr.SliceBefore | sokannonser/repository/text_to_concept.py:57-58 | the slice `[i-1:i]` is the character before position `i`, and is empty at `i == 0` (`[-1:0]`) |
| PyStr.ReplaceWithoutOccurrence | sokannonser/repository/text_to_concept.py:60 | a replace whose pattern does not occur returns the text unchanged |
| PyStr.ReplaceOnlyOccurrences | sokannonser/repository/text_to_concept.py:60 | the text is its pieces joined by the term and the result is the same pieces joined by the tag; no piece holds the term; the first piece ends at the first occurrence and the other pieces are those of the text after it, so the occurrences are taken left to right |
| PyStr.MaskRemovesTerm | sokannonser/repository/text_to_concept.py:60 | after masking with the tag, the term no longer occurs, when it cannot be formed from the tag's characters |
| PyStr.MaskKeepsAbsent | sokannonser/repository/text_to_concept.py:60 | masking another term never creates an occurrence of an absent term that cannot be formed from the tag |
| PyStr.LoweredHasNoUpperTerm | sokannonser/repository/text_to_concept.py:49-57 | a lower-cased text contains no term that has an upper-case letter |
| TextToConcept.GetConcepts | sokannonser/repository/text_to_concept.py:88-98 | with no type the matcher output is returned unchanged; otherwise it is an order-preserving subsequence holding exactly the matches of that type, as often as they occur, for plain records and for span triples |
| TextToConcept.NegationMark | sokannonser/repository/text_to_concept.py:57-61 | the operator of one lookup is `""` or `"-"`; the only error is the missing term |
| TextToConcept.NegationMarkFails | sokannonser/repository/text_to_concept.py:57 | a lookup raises exactly when the term does not occur in the working text |
| TextToConcept.NegationMarkAt | sokannonser/repository/text_to_concept.py:57-61 | at the first occurrence `i` the operator is `"-"` exactly when `0 < i` and the character before is a hyphen; at `i == 0` it is `""` |
| TextToConcept.NegationsOkStep | sokannonser/repository/text_to_concept.py:55-57 | the loop gets past its last record exactly when it got past the others and the last term occurs in its working text |
| TextToConcept.NegationsClassifyEach | sokannonser/repository/text_to_concept.py:55-61 | a successful loop returns every record, in match order, with operator `""` or `"-"` |
| TextToConcept.NegationsStopAtError | sokannonser/repository/text_to_concept.py:55-57 | once a record raises, the whole call raises with that error |
| TextToConcept.ResultKey | sokannonser/repository/text_to_concept.py:65-84 | a classified record belongs to at most one of the six keys; with operator `""` or `"-"` it belongs to one exactly when its type is one of the three; it is a `_must_not` key exactly when the operator is `"-"` |
| TextToConcept.Aggregate | sokannonser/repository/text_to_concept.py:79-84 | the result has exactly the six keys, and all six lists are empty for no records |
| TextToConcept.ExtractConcepts | sokannonser/repository/text_to_concept.py:47-86 | a successful call has the six keys; an empty match list gives six empty lists and never raises |
| TextToConcept.TextToConcepts | sokannonser/repository/text_to_concept.py:47-86 | the loop over the records, with its working string, computes exactly `ExtractConcepts` (the negation function followed by the six-way split), including the raise |
| TextToConcept.GroupedStep | sokannonser/repository/text_to_concept.py:28-31 | appending one record to the bucket of its label, opened empty when missing, keeps the buckets grouped |
| TextToConcept.GroupingIsGrouped | sokannonser/repository/text_to_concept.py:24-31 | the grouping's keys are exactly the labels loaded, and each bucket holds exactly the records with that label, in load order |
| TextToConcept.GroupByConcept | sokannonser/repository/text_to_concept.py:24-31 | without a client the dictionary stays empty; with one it is `Grouping(terms)`: keys are the labels seen, each bucket is an order-preserving subsequence, and every loaded record lands in the bucket of its own label and in no other |
| NegationLemmas.MaskStepPieces | sokannonser/repository/text_to_concept.py:60 | one record's step: the working text before it is its pieces joined by the record's term, the working text after it is the same pieces joined by `<removed>`, and no piece holds the term |
| NegationLemmas.FoundWhenOk | sokannonser/repository/text_to_concept.py:55-57 | in a successful call every term occurs in the working text it is looked up in |
| NegationLemmas.FailingRecord | sokannonser/repository/text_to_concept.py:55-57 | a failed call has a record whose term is missing from its working text |
| NegationLemmas.NegationsOkIff | sokannonser/repository/text_to_concept.py:55-57 | the loop finishes exactly when every term occurs in its working text |
| NegationLemmas.NegationsFirstFailure | sokannonser/repository/text_to_concept.py:55-57 | the first record whose term is missing makes the call raise `ValueError` for that term |
| NegationLemmas.NegationsPrefix | sokannonser/repository/text_to_concept.py:55-61 | the classification of a prefix of the records is the prefix of the classification |
| NegationLemmas.OperatorAt | sokannonser/repository/text_to_concept.py:57-61 | record `i`'s term occurs in its working text (lower-cased, earlier terms masked); its operator is `""` or `"-"`; it is `"-"` exactly when the character before the first occurrence is a hyphen; at position 0 it is `""` |
| NegationLemmas.MaskedLowered | sokannonser/repository/text_to_concept.py:49-60 | masking keeps the working text lower-case |
| NegationLemmas.UpperCaseTermFails | sokannonser/repository/text_to_concept.py:49-57 | a term with an upper-case letter makes the call raise |
| NegationLemmas.MaskedStaysFree | sokannonser/repository/text_to_concept.py:60 | once masked, a term occurs in no later working text, when it cannot be formed from the tag |
| NegationLemmas.RepeatedTermFails | sokannonser/repository/text_to_concept.py:55-60 | two records with the same term make the call raise, when the term cannot be formed from the tag |
| NegationLemmas.RepeatedTermInsideTag | sokannonser/repository/text_to_concept.py:55-61 | the term `e`, matched twice in `-e`, does not raise: it reads `'-'` first and then `''`, found inside the tag |
| PartitionLemmas.LabelsMembership | sokannonser/repository/text_to_concept.py:65-77 | a label is in the list for a type and operator exactly when some record of that type and operator has it as its lower-cased concept |
| PartitionLemmas.LabelsInMatchOrder | sokannonser/repository/text_to_concept.py:65-77 | each list is a subsequence of all the records' labels, in match order |
| PartitionLemmas.ResultKeyMeans | sokannonser/repository/text_to_concept.py:100-104 | each key is chosen exactly when `_filter_concepts` holds for its type and operator |
| PartitionLemmas.SameSelection | sokannonser/repository/text_to_concept.py:65-77 | the list filtered by a type and operator is the list of the records sent to the matching key |
| PartitionLemmas.AggregateByResultKey | sokannonser/repository/text_to_concept.py:65-84 | every list of the result holds the labels of exactly the records sent to its key, in order |
| PartitionLemmas.AggregateMembership | sokannonser/repository/text_to_concept.py:65-84 | a label is in a list exactly when some record that belongs to that list has it as its label |
| PartitionLemmas.AggregateSizes | sokannonser/repository/text_to_concept.py:65-84 | the six list lengths add up to the number of records with one of the three types and operator `""` or `"-"`: each such record is in exactly one list |

## Left out

- The `flashtext` keyword matcher (`add_keyword`, `add_non_word_boundary` with `åäöÅÄÖ()`, `extract_keywords` with its longest-match and word-boundary rules) is a foreign library. Its output is a parameter: `found` is a sequence of records, and `Keywords` holds records or span triples.
- `_elastic_iterator` and the Elasticsearch client are network I/O whose errors are logged and swallowed. The stream of loaded records is a parameter of `GroupByConcept`, and `hasClient` stands for `if self.client`.
- The constructor and the keyword processor it fills are not modelled. The grouping dictionary is returned rather than discarded.
- The `print` and `log` calls are output only.
- The in-place write of `concept['operator']` into the matcher's dictionaries is modelled as a new sequence of `Classified` records, one operator per match. When the matcher returns the same dictionary for two matches of one term, the code keeps only the operator written last, and both list entries read it. The model does not capture this aliasing. With a term the tag can re-form (`RepeatedTermInsideTag`), this changes the six lists: the code gives `skills == ["e", "e"]` and an empty `skills_must_not`, the model `["e"]` and `["e"]`. When the term cannot be formed from the tag, a repeated term raises (`RepeatedTermFails`), and the lists are never built.
- The same dictionaries are shared between calls. Two concurrent calls can overwrite each other's operators between the loop and the list comprehensions. The model covers one call in isolation.
- MaskStepPieces: stated for a non-empty term only, because the pieces between occurrences are not defined for an empty pattern. `Replace` itself models the empty pattern.
- `Lower` knows only the ASCII and Latin-1 upper-case letters. Python's full Unicode case mapping, including mappings that change the length, is not modelled.
- `sokannonser/rest/models.py` is request and response declarations for the web framework; it is not part of this model.
- RepeatedTermFails: holds only when the term shares no character with the ends of `<removed>` and does not occur inside it. `RepeatedTermInsideTag` shows that a repeated term without this proviso can succeed.
