# Presidio anonymizer engine, modelled in Dafny

This project models the observable behaviour of presidio's
`AnonymizerEngine`. The model covers `anonymize(text, analyzer_results, operators)`
and `get_anonymizers()`. The engine takes a text, the detections an analyzer
found in it, and a map from entity type to operator configuration. It returns
the anonymized text together with one operator result per replaced span.

The model is one pipeline, split into modules:

- `Entities`: recognizer results (entity type, start, end), operator
  configurations, operator results, engine results, and the error kinds of
  `InvalidParamError`.
- `Operators`: the operator registry, the choice of configuration per entity type,
  and the built-in operators that need no library. The entity type's own entry
  is used first, then `DEFAULT`, then `replace`. `replace` uses `new_value`, or
  the entity type in angle brackets when `new_value` is absent. `redact` gives
  the empty string, `keep` gives the original text, and `custom` applies its
  `lambda` to the original text.
- `Conflicts`: conflict resolution. Detections are sorted by start (longer
  first at a shared start). A detection inside one already kept is dropped.
  Neighbouring detections of the same type separated only by spaces are merged.
- `TextReplace`: the right-to-left splice. A loop walks the plan from the
  rightmost span and keeps a cursor `last` at the start of the span replaced
  before. Each step rebuilds the buffer as `buf[..start] + replacement + buf[min(end, last)..]`.
  The method `Splice` is proved against the function `Rendered`.
- `Engine`: `anonymize` as the function `Anonymize`, its imperative entry point
  `AnonymizeText`, and lemmas about the whole pipeline.
- `EngineTests`: every case of the engine's test suite as a verified lemma.
  Each one holds for both settings of the surrogate-service flag and for any
  implementation of the external operators.

## Model

| member | source | states |
|---|---|---|
| Operators.OperatorNames | presidio-anonymizer/tests/test_anonymizer_engine.py:18-25 | the registry holds every built-in name; `surrogate_ahds` is in it exactly when the service is available; it holds no other name |
| Engine.AnonymizerEngine.GetAnonymizers | presidio-anonymizer/tests/test_anonymizer_engine.py:18-25 | `get_anonymizers()`: every built-in name, `surrogate_ahds` exactly when the engine has the service, and no other name |
| Operators.OperatorCount | presidio-anonymizer/tests/test_anonymizer_engine.py:18-25 | the registry has seven names, or eight with the surrogate service |
| Operators.SelectConfig | presidio-anonymizer/tests/test_anonymizer_engine.py:69-91 | the type's own entry wins; otherwise `DEFAULT` applies; otherwise `replace` with no parameters |
| Operators.DefaultOperator | presidio-anonymizer/tests/test_anonymizer_engine.py:34-39 | the fallback configuration names a built-in operator and carries no `new_value` |
| Operators.DefaultTagsType | presidio-anonymizer/tests/test_anonymizer_engine.py:61-66 | the fallback turns any detection into its entity type in angle brackets |
| Operators.ReplaceText | presidio-anonymizer/tests/test_anonymizer_engine.py:34-39 | without `new_value` the replacement is `<TYPE>`; a text `new_value` is used as given; any other `new_value` is a parameter error |
| Operators.CustomText | presidio-anonymizer/tests/test_anonymizer_engine.py:42-58 | succeeds exactly when `lambda` is a function, and then gives that function applied to the original text; otherwise a parameter error naming `lambda` |
| Operators.Operate | presidio-anonymizer/tests/test_anonymizer_engine.py:114-124 | a name outside the registry fails with that name; `redact` gives ""; `keep` gives the original; `replace` and `custom` behave as above |
| Conflicts.Insert | presidio-anonymizer/tests/test_anonymizer_engine.py:140-148 | inserting into a sorted list keeps it sorted and adds exactly that element |
| Conflicts.SortSpans | presidio-anonymizer/tests/test_anonymizer_engine.py:140-148 | the result is sorted (start ascending, longer first at equal start) and a permutation of the input |
| Conflicts.DropContained | presidio-anonymizer/tests/test_anonymizer_engine.py:151-166 | keeps only detections of the input, and the kept detections' starts and ends both strictly increase |
| Conflicts.DropContainedCovers | presidio-anonymizer/tests/test_anonymizer_engine.py:151-166 | every dropped detection lies inside a kept one |
| Conflicts.DropContainedKeeps | presidio-anonymizer/tests/test_anonymizer_engine.py:42-58 | a detection that lies inside no other detection is kept |
| Conflicts.MergeBlankGaps | presidio-anonymizer/tests/test_anonymizer_engine.py:140-148 | merging never adds spans, and the first span keeps its start and type; the merge rule itself is stated by `MergedSpansAreRuns` and `MergeJoinsNeighbours` |
| Conflicts.MergeBlankGapsBounds | presidio-anonymizer/tests/test_anonymizer_engine.py:140-148 | merged spans stay inside the text and never start before the first input span |
| Conflicts.MergeBlankGapsOrdered | presidio-anonymizer/tests/test_anonymizer_engine.py:140-148 | merging keeps starts and ends strictly increasing |
| Conflicts.MergeKeepsEverySpan | presidio-anonymizer/tests/test_anonymizer_engine.py:140-148 | every input span lies inside a merged span of its own type |
| Conflicts.MergedSpansAreRuns | presidio-anonymizer/tests/test_anonymizer_engine.py:140-148 | nothing else is merged and no run is split: every merged span runs from the start of one span to the end of the same or a later one, every neighbour pair in between is of one type and separated only by spaces, and neither the span before the run nor the span after it could join it; the first merged span is the run that starts at the first span |
| Conflicts.MergeJoinsNeighbours | presidio-anonymizer/tests/test_anonymizer_engine.py:140-148 | any two neighbours of one type separated only by spaces end up in one merged span of that type |
| Conflicts.MergeKeepsTypes | presidio-anonymizer/tests/test_anonymizer_engine.py:140-148 | merging introduces no new entity type |
| Conflicts.MergeKeepsNoOverlaps | presidio-anonymizer/tests/test_anonymizer_engine.py:140-148 | merging spans that share no character gives spans that share no character |
| Conflicts.Resolve | presidio-anonymizer/tests/test_anonymizer_engine.py:140-166 | the plan is no longer than the input, lies inside the text, and its starts and ends strictly increase |
| Conflicts.ResolveCovers | presidio-anonymizer/tests/test_anonymizer_engine.py:151-166 | every detection lies inside some planned span |
| Conflicts.ResolveKeepsPartialOverlaps | presidio-anonymizer/tests/test_anonymizer_engine.py:42-58 | a detection inside no other one ends up inside a planned span of its own type |
| Conflicts.SortedUnique | presidio-anonymizer/tests/test_anonymizer_engine.py:140-148 | two sorted permutations of detections with distinct ranges are equal |
| Conflicts.ResolveIgnoresOrder | presidio-anonymizer/tests/test_anonymizer_engine.py:140-148 | detections with distinct ranges give the same plan in any input order |
| Conflicts.ResolveKeepsTypes | presidio-anonymizer/tests/test_anonymizer_engine.py:151-166 | every planned span has the type of some detection |
| Conflicts.ResolveSingle | presidio-anonymizer/tests/test_anonymizer_engine.py:34-39 | a single detection inside the text is planned as it is |
| Conflicts.ResolveKeepsNoOverlaps | presidio-anonymizer/tests/test_anonymizer_engine.py:127-148 | detections that share no character give a plan whose spans share no character |
| Conflicts.ResolveJoinsNeighbours | presidio-anonymizer/tests/test_anonymizer_engine.py:140-148 | two detections of one type separated only by spaces are replaced as one span of that type, when every other detection lies outside both or strictly inside one of them |
| TextReplace.Splice | presidio-anonymizer/tests/test_anonymizer_engine.py:42-58 | the right-to-left loop with the `min(end, last)` cursor produces exactly `Rendered` |
| TextReplace.Rendered | presidio-anonymizer/tests/test_anonymizer_engine.py:54-57 | the output the splice must produce: with no spans, the text itself; otherwise it starts with the text before the first span and ends with the text after the last span |
| TextReplace.After | presidio-anonymizer/tests/test_anonymizer_engine.py:54-57 | the output from span i on ends with the text after the last span, unchanged; past the last span it is empty |
| TextReplace.KeepRestoresText | presidio-anonymizer/tests/test_anonymizer_engine.py:18-25 | no test applies `keep`; by the design of the `keep` operator (listed in the registry), splicing every span's own original text back into a plan of non-overlapping spans gives the text unchanged |
| TextReplace.RedactLeavesUncovered | presidio-anonymizer/tests/test_anonymizer_engine.py:80-91 | splicing empty replacements leaves exactly the characters no planned span covers, in order |
| TextReplace.SingleRendered | presidio-anonymizer/tests/test_anonymizer_engine.py:34-39 | one span: the text before it, the replacement, then the text after it |
| TextReplace.TwoRendered | presidio-anonymizer/tests/test_anonymizer_engine.py:42-58 | two spans: text before the first, its replacement, the text between `min(first.end, second.start)` and the second start, the second replacement, then the text after the second |
| Engine.BoundsError | presidio-anonymizer/tests/test_anonymizer_engine.py:94-111 | no error exactly when every detection fits the text; an error names the start and end of the first misfit detection in input order, and the text length |
| Engine.ItemFor | presidio-anonymizer/tests/test_anonymizer_engine.py:42-58 | one planned span's outcome: it succeeds exactly when the selected operator does on the span's original text, and then records the span's offsets and type, the replacement and a registered operator name; otherwise it carries the operator's error |
| Engine.OperateAll | presidio-anonymizer/tests/test_anonymizer_engine.py:42-58 | on success there is one outcome per planned span; its meaning is stated by `OperateAllOutcomes` and `OperateAllFailsRightmost` |
| Engine.OperateAllOutcomes | presidio-anonymizer/tests/test_anonymizer_engine.py:114-124 | operating succeeds exactly when every planned span's operator succeeds; outcome i is span i's; a failure is some span's error |
| Engine.OperateAllFailsRightmost | presidio-anonymizer/tests/test_anonymizer_engine.py:114-124 | operating goes right to left and stops at the first failure: the error is that of a failing span after which every span succeeds |
| Engine.OperateAllFollowsPlan | presidio-anonymizer/tests/test_anonymizer_engine.py:42-58 | each outcome carries its planned span's start, end and entity type |
| Engine.ResolvedIsPlanned | presidio-anonymizer/tests/test_anonymizer_engine.py:140-166 | the resolved plan meets the splice's precondition and its ends ascend |
| Engine.Anonymize | presidio-anonymizer/tests/test_anonymizer_engine.py:28-31 | no detections give the text back with no items |
| Engine.OutOfBoundsFails | presidio-anonymizer/tests/test_anonymizer_engine.py:94-111 | a detection outside the text fails the call with a misfit detection's offsets and the text length |
| Engine.AnonymizeIgnoresOrder | presidio-anonymizer/tests/test_anonymizer_engine.py:140-148 | detections that fit the text give the same result in any order, provided no two share a range |
| Engine.SuccessUnfolds | presidio-anonymizer/tests/test_anonymizer_engine.py:42-58 | on success all detections fit and the items are the outcomes of operating on the plan |
| Engine.SuccessItemsOrdered | presidio-anonymizer/tests/test_anonymizer_engine.py:140-148 | on success the items' starts and ends strictly increase |
| Engine.SuccessItemsOperated | presidio-anonymizer/tests/test_anonymizer_engine.py:42-58 | on success each item lies in the text, names a registered operator, and holds what the selected operator made of the item's original text |
| Engine.PlanSelects | presidio-anonymizer/tests/test_anonymizer_engine.py:69-91 | when every detection selects one operator, every planned span does too |
| Engine.SingleSpan | presidio-anonymizer/tests/test_anonymizer_engine.py:34-39 | one detection: success with the text around it kept and the replacement in its place, or exactly the operator's error |
| Engine.SinglePlanReplaced | presidio-anonymizer/tests/test_anonymizer_engine.py:151-166 | a plan reduced to one span is rendered as that span replaced in the text |
| Engine.SingleSpanReplaced | presidio-anonymizer/tests/test_anonymizer_engine.py:69-77 | one detection whose operator succeeds is replaced in place, with the text around it unchanged |
| Engine.TwoPlanReplaced | presidio-anonymizer/tests/test_anonymizer_engine.py:42-58 | a plan of two spans is rendered by the two-span splice of their replacements |
| Engine.OperateAllAgree | presidio-anonymizer/tests/test_anonymizer_engine.py:80-91 | two configurations that select the same operator for every planned span give the same outcomes |
| Engine.DefaultUnusedWhenTypesConfigured | presidio-anonymizer/tests/test_anonymizer_engine.py:80-91 | when every detected type has its own entry, changing `DEFAULT` changes nothing |
| Engine.ResolveNonEmpty | presidio-anonymizer/tests/test_anonymizer_engine.py:28-31 | some detections always give a non-empty plan |
| Engine.UnknownOperatorFails | presidio-anonymizer/tests/test_anonymizer_engine.py:114-124 | when every detection selects an unregistered operator name, the call fails naming it |
| Engine.NoConfigurationTagsTypes | presidio-anonymizer/tests/test_anonymizer_engine.py:61-66 | with no configuration the call succeeds and every item is `<TYPE>` made by `replace` |
| Engine.KeepPlan | presidio-anonymizer/tests/test_anonymizer_engine.py:18-25 | no test applies `keep`; by the design of the `keep` operator, keeping every span of a non-overlapping plan renders the text unchanged |
| Engine.KeepEverywhere | presidio-anonymizer/tests/test_anonymizer_engine.py:18-25 | no test applies `keep`; by the design of the `keep` operator, `keep` on detections that share no character succeeds with the text unchanged |
| Engine.RedactPlan | presidio-anonymizer/tests/test_anonymizer_engine.py:80-91 | redacting every span of a plan succeeds and leaves exactly the characters no span covers |
| Engine.RedactEverywhere | presidio-anonymizer/tests/test_anonymizer_engine.py:80-91 | `redact` everywhere succeeds and leaves exactly the characters outside the plan |
| Engine.DetectedCharactersCovered | presidio-anonymizer/tests/test_anonymizer_engine.py:151-166 | every character of every detection is covered by the plan |
| Engine.AnonymizeText | presidio-anonymizer/tests/test_anonymizer_engine.py:127-137 | the imperative entry point returns what `Anonymize` specifies and leaves the caller's detections unchanged |
| EngineTests.RegistryContents | presidio-anonymizer/tests/test_anonymizer_engine.py:18-25 | the registry is the seven names, plus `surrogate_ahds` exactly when available |
| EngineTests.EmptySpansGiveTextBack | presidio-anonymizer/tests/test_anonymizer_engine.py:28-31 | "one two three" with no detections comes back unchanged |
| EngineTests.EmptyConfigurationFallsBackToTypeTag | presidio-anonymizer/tests/test_anonymizer_engine.py:34-39 | SSN[7,17) with no configuration gives "please <SSN>." |
| EngineTests.OverlapSlices | presidio-anonymizer/tests/test_anonymizer_engine.py:44-49 | the card and URL detections cover "4151 3217 6243 3448" and "3448.com" |
| EngineTests.OverlapPlan | presidio-anonymizer/tests/test_anonymizer_engine.py:48-52 | both partly overlapping detections are planned, card first |
| EngineTests.OverlapReplacements | presidio-anonymizer/tests/test_anonymizer_engine.py:50-57 | the custom operator under `DEFAULT` wraps each original substring in `<ENTITY: ...>` |
| EngineTests.CustomOperatorOnOverlap | presidio-anonymizer/tests/test_anonymizer_engine.py:42-58 | the two replacements appear back to back, with the shared "3448" not repeated between them |
| EngineTests.DefaultConfigurationUsed | presidio-anonymizer/tests/test_anonymizer_engine.py:69-77 | `DEFAULT` replace gives "please and thank you." |
| EngineTests.SpecificConfigurationWins | presidio-anonymizer/tests/test_anonymizer_engine.py:80-91 | the SSN entry's `redact` beats `DEFAULT` and gives "please ." |
| EngineTests.SpanPastEndFails | presidio-anonymizer/tests/test_anonymizer_engine.py:94-111 | (5,12) and (12,16) on "hello world" fail with those offsets and length 11 |
| EngineTests.UnknownOperatorNamed | presidio-anonymizer/tests/test_anonymizer_engine.py:114-124 | the operator "fake" fails the call naming "fake" |
| EngineTests.InputNotMutated | presidio-anonymizer/tests/test_anonymizer_engine.py:127-137 | the caller's two PERSON detections read the same after the call |
| EngineTests.UnsortedSorted | presidio-anonymizer/tests/test_anonymizer_engine.py:140-146 | sorting puts PERSON[0,4) before PERSON[5,8) |
| EngineTests.UnsortedMerged | presidio-anonymizer/tests/test_anonymizer_engine.py:140-146 | the two PERSON detections separated by one space merge into PERSON[0,8) |
| EngineTests.UnsortedPlan | presidio-anonymizer/tests/test_anonymizer_engine.py:140-147 | the unsorted pair is planned as the single span PERSON[0,8) |
| EngineTests.UnsortedInputMerged | presidio-anonymizer/tests/test_anonymizer_engine.py:140-148 | the unsorted pair gives "<PERSON> is a person" |
| EngineTests.ContainedSorted | presidio-anonymizer/tests/test_anonymizer_engine.py:151-158 | at the shared start the longer LOCATION sorts before PERSON |
| EngineTests.ContainedPlan | presidio-anonymizer/tests/test_anonymizer_engine.py:151-163 | PERSON[4,21) inside LOCATION[4,33) is dropped from the plan |
| EngineTests.ContainedDetectionDropped | presidio-anonymizer/tests/test_anonymizer_engine.py:151-165 | the contained detection is not applied, giving "I'm <LOCATION>." |

## Left out

- The engine source file `presidio_anonymizer/anonymizer_engine.py` is not part of this model. The model follows the behaviour the test suite pins down.
- `hash`, `mask`, `encrypt` and `surrogate_ahds` are only registry names. Their behaviour is the parameter `external` (type `ExternalOperators`), because they rely on cryptographic libraries and an external health-data service.
- `AHDS_AVAILABLE` is the field `ahdsAvailable` of the engine value. Whether the service loads is decided outside the model.
- The confidence score is left out, because no asserted outcome depends on it. Of two detections with the same range, only the first in input order is kept, whereas presidio keeps the one with the higher score.
- Conflicts.ResolveIgnoresOrder: requires that no two detections share a range. Detections with the same range are ordered by score in presidio, and the score is not modelled.
- Logging of dropped detections is left out (the mocked logger, lines 151 and 166). A drop is a silent step of `DropContained`.
- Error messages and exception classes are left out. Errors are values of `InvalidParamError` carrying the offending offsets or names.
- The `_operate` helper (lines 169-177) is left out. It returns a canned result and no test uses it.
- Detections of one type that overlap without containment are not united. Presidio does that in a first pass, but no test pins it. Both such detections are planned and spliced with the `min(end, last)` cursor.
- The plan is built by sort, then drop-contained, then merge. Merging first can make a merged span contain an earlier kept span at the same start, which would break the strictly ordered plan the splice needs. Every test gives the same result in either order.
- Engine.AnonymizeIgnoresOrder: holds only when every detection fits the text. On failure the error depends on order, because `BoundsError` names the first misfit in input order.
- Conflicts.ResolveJoinsNeighbours: requires every other detection to lie outside the two or strictly inside one of them. A detection reaching into the gap is kept as a partial overlap and can keep the two apart.
- Engine.BoundsError: also rejects an empty or reversed detection (start >= end), not only one that ends past the text. Offsets are natural numbers, so a negative start cannot arise.
- An omitted operator map (`operators=None`) is modelled as the empty map. The tests at lines 34-39 and 61-66 give the same result for both.
- `get_anonymizers()` is modelled as a set, because its list order is not observable in the tests.
- TextReplace.KeepRestoresText: holds only for plans whose spans share no character. With partial overlaps the `min(end, last)` cursor repeats the shared characters under `keep`.
- Engine.RedactEverywhere: the result leaves out the spaces inside merged gaps as well, because a merged span covers its gap.
- The `mask` operator's parameters are not modelled; no test exercises them.
