# Snowride core: cell classifier, output correlator, tree aggregation

This project is a Dafny model of three parts of the Snowride Robot Framework
IDE, with proofs of their properties.

- **Cell classifier** (module `Cell`, `cell.dfy`). The grid editor decides
  for each cell of a logical line whether it is a comment or the line's
  keyword. From that it derives the cell's style, its completion options and
  the catalog keyword it refers to. The Java cell stores the classification
  in mutable fields that every query recomputes first. Here those fields are
  the value `CellState`, and the recomputation is a pure function of the
  previous fields, the line, the cell index and the keyword catalog.
- **Output correlator** (module `OutputParser`, `output_parser.dfy`, with
  the proofs in module `CorrelationProperties`, `correlation_properties.dfy`).
  It matches each node of a test-run result document to a project element
  by qualified name, ignoring case. It points that element's
  `outputElement` slot at the node. It marks suites whose own setup or
  teardown failed. A failing test may carry a setup or teardown that it
  inherited from a suite's `Test Setup` / `Test Teardown` setting rather
  than declaring it with a `[Setup]` / `[Teardown]` row. Such a record is
  re-tagged, moved off the test, and attached to the nearest suite whose
  Settings section declares it; that suite is then marked failing.
  - The result tree is immutable. Changes to keyword lists are an overlay
    map keyed by node position.
  - Changes to the project tree are an ordered effect log that
    `ApplyEffects` replays onto `SourceMarks`.
- **Tree aggregation** (module `HighElements`, `highelement.dfy`). Every
  project element caches two multisets: the errors of itself and everything
  below it, and the ids of all its descendants. A listener keeps them up to
  date as children are added and removed. Here the listener's incremental
  update is carried out explicitly, and the proofs show that it agrees with
  recomputing the aggregates from a pre-order listing of the tree.

Shared string helpers live in module `Text` (`text.dfy`): prefix, suffix and
substring tests, and an ASCII case fold. Module `Optional` (`optional.dfy`)
holds the optional value that stands for a Java reference that may be `null`.

Notable behaviours of the code that the model keeps and the proofs pin down:

- The row label (cell 0) is never visited by the classification loop, so
  its flags describe the whole line (`Cell.ClassifyRowLabel`).
- `preprocess` visits a result suite's children twice: once inside the
  suite branch, and once more through the final `else`, because a suite is
  not a test. `CorrelationProperties.SecondTraversalAddsNothing` proves that
  the second visit changes no keyword list and logs no new effect.
- `cleanup` restores the icon of suites only. A non-suite element that a
  pass marked failing keeps that mark. This happens when a result suite's
  name matches a scenario. `CorrelationProperties.RerunMatchesFresh` states
  the exact difference from a fresh run.

## Model

| member | source | states |
|---|---|---|
| Cell.UpdateSemanticsStatus | src/main/java/cz/hudecekpetr/snowride/lexer/Cell.java:60-89 | the recomputed index is the cell's own index; a comment cell is never the keyword; the catalog field holds the suite catalog whenever the cell is the keyword, and otherwise either that catalog or its previous value |
| Cell.Scan | src/main/java/cz/hudecekpetr/snowride/lexer/Cell.java:65-88 | one step of the loop per cell from the current one: the result carries the cell's own index, a comment cell is never the keyword, and the catalog field is only ever replaced by the catalog, which it holds whenever the cell comes out as the keyword; `Cell.ClassifyAfterLabel` and `Cell.ClassifyRowLabel` say which cells are comments and keywords |
| Cell.ClassifyAfterLabel | src/main/java/cz/hudecekpetr/snowride/lexer/Cell.java:60-89 | for a cell after the row label: comment iff some cell from index 1 up to it starts with `#`; keyword iff it is the first cell after the label that is neither a variable nor a comment |
| Cell.ClassifyRowLabel | src/main/java/cz/hudecekpetr/snowride/lexer/Cell.java:60-89 | for the row label: comment iff some later cell starts with `#`; keyword iff the last cell of the line is the keyword cell |
| Cell.CommentAbsorbsRest | src/main/java/cz/hudecekpetr/snowride/lexer/Cell.java:72-75 | once a cell after the label starts with `#`, every later cell is a comment and not a keyword |
| Cell.AtMostOneKeyword | src/main/java/cz/hudecekpetr/snowride/lexer/Cell.java:76-83 | no two distinct cells after the label are both the keyword |
| Cell.BracketedSettingIsKeyword | src/main/java/cz/hudecekpetr/snowride/lexer/Cell.java:76-83 | a bracketed cell at index 1 is the keyword, and no later cell is |
| Cell.RowLabelIrrelevant | src/main/java/cz/hudecekpetr/snowride/lexer/Cell.java:65-70 | changing the row label's contents changes no cell's classification |
| Cell.PrefixLocality | src/main/java/cz/hudecekpetr/snowride/lexer/Cell.java:84-87 | a cell after the label is classified from cells 1..itself alone; later cells do not matter |
| Cell.UpdateIdempotent | src/main/java/cz/hudecekpetr/snowride/lexer/Cell.java:60-89 | the flags and index do not depend on the previous field values, and recomputing on the recomputed fields is a fixed point |
| Cell.QueriesIgnorePriorState | src/main/java/cz/hudecekpetr/snowride/lexer/Cell.java:36-114 | style, completion options and resolved keyword are the same whatever the previous query left in the fields |
| Cell.GetStyle | src/main/java/cz/hudecekpetr/snowride/lexer/Cell.java:36-58 | the style is one of the six CSS fragments the code builds, or empty |
| Cell.StyleRules | src/main/java/cz/hudecekpetr/snowride/lexer/Cell.java:36-58 | for cells after the row label, with the reference definitions: setting style for a bracketed cell 1, else comment style, else keyword style coloured by whether the first case-insensitive catalog match is a test case, else green when the cell mentions a variable |
| Cell.RowLabelStyle | src/main/java/cz/hudecekpetr/snowride/lexer/Cell.java:36-58 | the row label takes the comment style when any later cell starts with `#`; otherwise the keyword style, coloured by the first case-insensitive catalog match of its own contents, when the line's last cell is the keyword cell; otherwise green when it mentions a variable, and no style else |
| Cell.GetCompletionOptions | src/main/java/cz/hudecekpetr/snowride/lexer/Cell.java:91-101 | the options are the setting names when the index is 1, followed by the whole catalog when the cell is the keyword |
| Cell.CompletionRules | src/main/java/cz/hudecekpetr/snowride/lexer/Cell.java:91-101 | the option count, and the setting-name prefix and catalog suffix, stated with the reference keyword-cell definition |
| Cell.GetKeywordInThisCell | src/main/java/cz/hudecekpetr/snowride/lexer/Cell.java:103-114 | a keyword is returned iff the cell is the keyword and the catalog has a case-insensitive match, and it is the first such match |
| Cell.KeywordResolution | src/main/java/cz/hudecekpetr/snowride/lexer/Cell.java:103-114 | the resolved keyword equals the contents ignoring case and exists only for the keyword cell; a keyword cell with any match resolves |
| Cell.FirstMatch | src/main/java/cz/hudecekpetr/snowride/lexer/Cell.java:106-108 | the result is the first catalog index whose text equals the contents after lower-casing; none iff there is no such index |
| Text.LowerEqualsIffIgnoreCase | src/main/java/cz/hudecekpetr/snowride/lexer/Cell.java:46 | comparing lower-cased copies is the same relation as comparing ignoring case |
| HighElements.AddChildren | src/main/java/cz/hudecekpetr/snowride/tree/highelements/HighElement.java:84-92 | children are appended in order; scenario children get this element as parent, and other children are unchanged; the element's own fields are unchanged |
| HighElements.AddChildrenGrows | src/main/java/cz/hudecekpetr/snowride/tree/highelements/HighElement.java:67-72 | the aggregates grow by exactly the added children's errors and the children with their descendants; re-pointing parents does not change them |
| HighElements.AddChildrenKeepsValid | src/main/java/cz/hudecekpetr/snowride/tree/highelements/HighElement.java:67-72 | adding valid children to a valid element keeps the aggregation invariant at every element |
| HighElements.AddChildrenAt | src/main/java/cz/hudecekpetr/snowride/tree/highelements/HighElement.java:67-78 | `addChildren` on a descendant: the element at the path becomes exactly what `addChildren` makes of it; the root keeps its own fields (id, name, kind, own errors, parent, change state) and every child off the path; the root's aggregates grow by exactly the added children's errors and the children with their descendants; `HighElements.AddChildrenAtKeepsValid` shows every aggregate on the way stays exact |
| HighElements.AddChildrenAtFrame | src/main/java/cz/hudecekpetr/snowride/tree/highelements/HighElement.java:67-78 | at every level above the target, the element keeps its own fields and every child off the path; only its aggregates change |
| HighElements.NewHighElement | src/main/java/cz/hudecekpetr/snowride/tree/highelements/HighElement.java:52-82 | a new element aggregates its own errors plus its children's, lists its children and their descendants, and has no parent |
| HighElements.NewHighElementValid | src/main/java/cz/hudecekpetr/snowride/tree/highelements/HighElement.java:65-81 | a newly constructed element over valid children satisfies the aggregation invariant |
| HighElements.DissociateSelfFromChild | src/main/java/cz/hudecekpetr/snowride/tree/highelements/HighElement.java:135-138 | the first child with that identity is cut out of the children; a non-child leaves the element unchanged |
| HighElements.DissociateKeepsValid | src/main/java/cz/hudecekpetr/snowride/tree/highelements/HighElement.java:73-76 | removing a child keeps the invariant, and the aggregates lose exactly the child's errors and the child with its descendants |
| HighElements.DissociateAt | src/main/java/cz/hudecekpetr/snowride/tree/highelements/HighElement.java:67-78 | `dissociateSelfFromChild` on a descendant: the element at the path becomes exactly what `dissociateSelfFromChild` makes of it; the root keeps its own fields (id, name, kind, own errors, parent, change state) and every child off the path; `HighElements.DissociateAtKeepsValid` shows the aggregates on the way lose exactly the removed child's contributions |
| HighElements.DissociateAtFrame | src/main/java/cz/hudecekpetr/snowride/tree/highelements/HighElement.java:67-78 | at every level above the target, the element keeps its own fields and every child off the path; only its aggregates change |
| HighElements.AddThenDissociate | src/main/java/cz/hudecekpetr/snowride/tree/highelements/HighElement.java:84-92 | adding a new child and then dissociating it gives back the original element |
| HighElements.AddChildrenAtKeepsValid | src/main/java/cz/hudecekpetr/snowride/tree/highelements/HighElement.java:67-72 | adding children anywhere in a valid tree keeps it valid, and the root's aggregates grow by exactly the children's contributions |
| HighElements.DissociateAtKeepsValid | src/main/java/cz/hudecekpetr/snowride/tree/highelements/HighElement.java:73-76 | removing a child anywhere in a valid tree keeps it valid, and the root's aggregates lose exactly the removed subtree's contributions |
| HighElements.CachesMatchListing | src/main/java/cz/hudecekpetr/snowride/tree/highelements/HighElement.java:118-123 | in a valid element the cached aggregates equal the recomputation over the pre-order listing of the element and its descendants |
| HighElements.SelfAndDescendants | src/main/java/cz/hudecekpetr/snowride/tree/highelements/HighElement.java:118-123 | the listing starts with the element itself |
| HighElements.NotOwnDescendant | src/main/java/cz/hudecekpetr/snowride/tree/highelements/HighElement.java:32 | in a valid tree with distinct ids, an element is not among its own descendants |
| HighElements.QualifiedNameIsDottedPath | src/main/java/cz/hudecekpetr/snowride/tree/highelements/HighElement.java:125-131 | the qualified name is the dot-joined short names of the ancestors reached by following parent links upward, stopping at a missing link or at an ancestor excluded from naming, then the element's own name |
| HighElements.QualifiedName | src/main/java/cz/hudecekpetr/snowride/tree/highelements/HighElement.java:125-131 | `getQualifiedName` over the parent links: the name is the short name alone or ends with a dot and the short name; `HighElements.QualifiedNameIsDottedPath` gives the whole dotted path |
| HighElements.AddedChildNames | src/main/java/cz/hudecekpetr/snowride/tree/highelements/HighElement.java:84-92 | after `addChildren`, a scenario child is named after the container (just its short name when the container is excluded from naming); a non-scenario child without a parent link keeps only its short name |
| HighElements.SearchIndexCoversDescendants | src/main/java/cz/hudecekpetr/snowride/output/OutputParser.java:204 | the name index the correlator searches holds exactly the root's cached descendants |
| HighElements.Registry | src/main/java/cz/hudecekpetr/snowride/output/OutputParser.java:202-208 | the entries list the element and then its descendants in pre-order, one for one with their ids and kinds, the first carrying the element's qualified name |
| HighElements.SearchIndex | src/main/java/cz/hudecekpetr/snowride/output/OutputParser.java:202-204 | the index lists the root's descendants in pre-order, one for one with their ids and kinds; `HighElements.SearchIndexCoversDescendants` shows they are exactly `childrenRecursively` |
| HighElements.ToString | src/main/java/cz/hudecekpetr/snowride/tree/highelements/HighElement.java:95-103 | the text ends with the short name; it equals the short name iff there are no unsaved changes; with short prefixes it is `*` plus the name; with long prefixes it is `[text changed] ` or `[structure changed] ` plus the name, according to the kind of change |
| HighElements.ToStringDistinguishesChanges | src/main/java/cz/hudecekpetr/snowride/tree/highelements/HighElement.java:95-103 | with long prefixes, equal texts for equal names mean equal change states |
| OutputParser.FindLineStartingWith | src/main/java/cz/hudecekpetr/snowride/output/OutputParser.java:216-218 | the first line that has the cell and whose cell equals the key ignoring case; none iff no line qualifies |
| OutputParser.FindHighElement | src/main/java/cz/hudecekpetr/snowride/output/OutputParser.java:203-210 | the first indexed element whose qualified name equals the full name ignoring case; none iff there is none |
| OutputParser.FindAndAssignOutput | src/main/java/cz/hudecekpetr/snowride/output/OutputParser.java:195-201 | exactly one slot assignment, for the element found, is logged; nothing happens when none is found |
| OutputParser.ExplicitRowMarker | src/main/java/cz/hudecekpetr/snowride/output/OutputParser.java:127-137 | setup types map to `[Setup]`, teardown types to `[Teardown]`, and other types to the empty string |
| OutputParser.TestLevelType | src/main/java/cz/hudecekpetr/snowride/output/OutputParser.java:139-143 | setup types are re-tagged as test setup, teardown types as test teardown, and other types stay |
| OutputParser.SettingKey | src/main/java/cz/hudecekpetr/snowride/output/OutputParser.java:173-179 | teardown and test teardown look for `Test Teardown`; every other type looks for `Test Setup` |
| OutputParser.FailingSetupTeardown | src/main/java/cz/hudecekpetr/snowride/output/OutputParser.java:122 | every record returned is a failing setup or teardown, each with its multiplicity in the body |
| OutputParser.RemoveFirst | src/main/java/cz/hudecekpetr/snowride/output/OutputParser.java:144 | one occurrence of the record is removed; an absent record leaves the list unchanged |
| OutputParser.SuiteStep | src/main/java/cz/hudecekpetr/snowride/output/OutputParser.java:103-113 | a matched suite gets its slot assigned, then a failing mark exactly when one of its records failed; an unmatched suite changes nothing |
| OutputParser.TestStep | src/main/java/cz/hudecekpetr/snowride/output/OutputParser.java:118-150 | effects are only appended; a test that did not fail, a failing test matched to nothing or to an element that is not a test case, and a test with no failing setup or teardown each only get their slot assigned |
| OutputParser.AttachToSuite | src/main/java/cz/hudecekpetr/snowride/output/OutputParser.java:157-192 | the walk up the result ancestors only appends effects; `CorrelationProperties.AttachesToFirstReceiver`, `CorrelationProperties.DropsWithoutReceiver` and `CorrelationProperties.WalkOutcome` say where the record lands |
| OutputParser.PromoteOne | src/main/java/cz/hudecekpetr/snowride/output/OutputParser.java:126-146 | handling one failing record only appends effects; `CorrelationProperties.PromoteOneOutcome` says when it is kept, removed and walked up |
| OutputParser.PromoteAll | src/main/java/cz/hudecekpetr/snowride/output/OutputParser.java:126-147 | the loop over a test's failing records only appends effects; `CorrelationProperties.PromoteAllBody` and `CorrelationProperties.PromotionLeavesOnlyExplicit` give its effect on the test |
| OutputParser.Preprocess | src/main/java/cz/hudecekpetr/snowride/output/OutputParser.java:101-155 | visiting a result node and its subtree only appends effects; `CorrelationProperties.FirstVisit` and `CorrelationProperties.SecondVisit` give what the visit settles |
| OutputParser.PreprocessAll | src/main/java/cz/hudecekpetr/snowride/output/OutputParser.java:101-155 | visiting the children of a node in order only appends effects; `CorrelationProperties.SecondTraversalAddsNothing` shows the second traversal of a suite's children adds nothing |
| OutputParser.Correlate | src/main/java/cz/hudecekpetr/snowride/output/OutputParser.java:94-99 | every slot assignment one pass logs, over suite, test and walk visits, points at a result suite or test whose full name equals, ignoring case, the qualified name of an indexed element with that id |
| OutputParser.ApplyEffects | src/main/java/cz/hudecekpetr/snowride/output/OutputParser.java:193-199 | replaying the log only adds slots and failing marks; `OutputParser.ApplyEffectsFrame` and `OutputParser.ApplyEffectsLastAssignment` say which |
| OutputParser.ApplyEffectsFrame | src/main/java/cz/hudecekpetr/snowride/output/OutputParser.java:195-201 | replaying effects adds exactly the logged failing marks and slot keys; elements no effect names keep their slot |
| OutputParser.ParseOutput | src/main/java/cz/hudecekpetr/snowride/output/OutputParser.java:58-91 | when disabled nothing changes; otherwise the failing marks grow by exactly the marks of one correlation pass, the elements with a slot grow by exactly those the pass assigns, each assigned slot holds the path of the last assignment the pass logged for that element, which points at a result suite or test whose full name equals, ignoring case, the element's indexed qualified name, and every other slot is unchanged |
| OutputParser.ApplyEffectsLastAssignment | src/main/java/cz/hudecekpetr/snowride/output/OutputParser.java:195-201 | after replaying, every assigned element's slot holds the path of the last assignment to it, read from the end of the log by `OutputParser.LastAssigned`, and every element no assignment names keeps its slot |
| OutputParser.Cleanup | src/main/java/cz/hudecekpetr/snowride/output/OutputParser.java:40-51 | when disabled nothing changes; otherwise no element below the root keeps a slot, other slots are kept, and an element stays marked iff it was marked and is not a suite below the root |
| CorrelationProperties.AttachesToFirstReceiver | src/main/java/cz/hudecekpetr/snowride/output/OutputParser.java:157-192 | after ancestors that pass the record on, the first ancestor whose Settings declare it gets the record appended, and its element is marked failing |
| CorrelationProperties.DropsWithoutReceiver | src/main/java/cz/hudecekpetr/snowride/output/OutputParser.java:157-192 | when no ancestor on the walk receives the record, no keyword list changes and only slot assignments are logged |
| CorrelationProperties.WalkOutcome | src/main/java/cz/hudecekpetr/snowride/output/OutputParser.java:157-192 | the walk either changes no keyword list or appends the record to exactly one receiving ancestor that had no record of that type |
| CorrelationProperties.AttachExpected | src/main/java/cz/hudecekpetr/snowride/output/OutputParser.java:157-192 | the walk only appends effects, names only indexed elements, and changes only the list of a suite it marks failing |
| CorrelationProperties.PromoteOneOutcome | src/main/java/cz/hudecekpetr/snowride/output/OutputParser.java:126-146 | a record the scenario declares explicitly leaves everything unchanged; otherwise it is removed from the test and walked upwards re-tagged |
| CorrelationProperties.PromoteAllBody | src/main/java/cz/hudecekpetr/snowride/output/OutputParser.java:126-147 | the test's records lose, as a multiset, exactly the failing records its scenario does not declare |
| CorrelationProperties.PromotionLeavesOnlyExplicit | src/main/java/cz/hudecekpetr/snowride/output/OutputParser.java:121-147 | after promotion every failing setup or teardown left on the test is declared by an explicit row of its scenario |
| CorrelationProperties.PromoteAllIdle | src/main/java/cz/hudecekpetr/snowride/output/OutputParser.java:138 | when every record is declared explicitly, promotion changes nothing |
| CorrelationProperties.FirstVisit | src/main/java/cz/hudecekpetr/snowride/output/OutputParser.java:101-155 | after one visit every node of the subtree is settled, and only lists of marked suites or of tests in the subtree have changed |
| CorrelationProperties.SecondVisit | src/main/java/cz/hudecekpetr/snowride/output/OutputParser.java:101-155 | visiting a settled subtree again changes no list and logs no effect that was not logged before |
| CorrelationProperties.SecondTraversalAddsNothing | src/main/java/cz/hudecekpetr/snowride/output/OutputParser.java:116-153 | the second visit of a suite's children changes no list and logs no effect that the first visit did not already log |
| CorrelationProperties.CorrelateFromIndex | src/main/java/cz/hudecekpetr/snowride/output/OutputParser.java:195-210 | every effect of a pass names an element of the name index |
| CorrelationProperties.CleanupUndoesParse | src/main/java/cz/hudecekpetr/snowride/output/OutputParser.java:40-91 | cleanup after a pass leaves the same slots as cleanup alone; the failing marks differ by the pass's marks on non-suites |
| CorrelationProperties.RerunMatchesFresh | src/main/java/cz/hudecekpetr/snowride/output/OutputParser.java:40-91 | a second run after cleanup assigns the same slots as a run on a cleaned fresh state; failing marks differ only by the first run's marks on non-suites |

## Left out

- Reading `output.xml` with JAXB, the warning for Robot Framework versions older than 3, and its dialog are left out. The result document is a parameter of `ParseOutput`.
- Icons, tree nodes, `navigationStack.clearOutputElementStack` and `updateTablesLineNumberCellsStyle` are user-interface work. The model keeps only the failing mark an error icon stands for.
- `Text.LowerChar`: Java's `toLowerCase` and `equalsIgnoreCase` fold all of Unicode. The model folds the ASCII letters only.
- `Cell.UpdateSemanticsStatus`: the owning suite's `getKeywordsPermissibleInSuite` is outside this model. Its result is the `catalog` parameter. Virtual cells and the cast of the parent to `Suite` are not modelled.
- `Cell.GetCompletionOptions`: `TestCaseSettingOption.allOptions` is the `settingNames` parameter.
- `OutputParser.FailingSetupTeardown`: `Test.getFailingSetupTeardown` is not part of this model. It is taken to be the body records of a setup or teardown type with status FAIL, in order.
- `OutputParser.RemoveFirst`: `List.remove` uses the record's `equals`. The model removes the first structurally equal record, which is the same one unless a test holds two identical records.
- `OutputParser.AttachToSuite`: a suite's Settings section is assumed to be a key-value section. The model does not represent the `instanceof KeyValuePairSection` test, which would skip the suite silently.
- `HighElements.AddChildren`: Java casts `this` to `Suite` when a scenario is added, and throws `ClassCastException` for any other container after `children.addAll` has already appended the children. The model's `CanAdopt` precondition excludes that call, so the half-updated state after the exception is not modelled.
- `HighElements.QualifiedName`: a parent link is followed only when it names the next element of the given ancestor chain. `addChildren` only ever stores the container there; suite parent links set by the file loader are not part of this model.
- `HighElements.SearchIndex`: `childrenRecursively` is an observable multiset with no stated iteration order. The model searches the root's descendants in pre-order, and `HighElements.SearchIndexCoversDescendants` proves that this is the same collection.
- Parent links of result nodes are replaced by the explicit list of ancestor frames. Object identity is replaced by element ids for the project tree and by tree positions for result nodes.
- The rest of `HighElement` is left out, because it is file, undo and UI behaviour: tags, saving, renaming, deleting, check boxes, images and the undo stack.
- `TextEditTab` and `CellSemantics` are not part of this model.
