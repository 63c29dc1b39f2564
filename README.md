# trivit answer-type conversion, in Dafny

A quiz question in the trivit editor has one of five types. Each type stores its
answer in its own shape:

- `free_form` stores a string;
- `true_false` stores a boolean;
- `mc_single`, `mc_multiple` and `ordered` store a sequence of choices
  `{key, text, value}`.

When the author changes a question's type, `get_answer_on_type_change` computes
the answer under the new type. Some changes are safe and the editor installs the
new answer silently. Others lose data: the source then throws an
`AnswerConversionError` that carries a proposed answer, and the editor asks the
author to confirm it. This project models that engine, the type table
`TYPE_CONFIGS` with its reverse index `TYPES_BY_DISPLAY`, the per-type
`on_choice_toggled` rules, and the emptiness predicates `are_empty` and
`has_text`. It proves what each conversion path yields.

Modules:

- `Wrappers`: `Option`.
- `JsText`: ECMAScript `trim` over its whitespace set, and `join`.
- `Answers`:
  - the data model: `Val`, `Choice`, `QType` and `Answer`;
  - JavaScript truthiness of a choice value;
  - `has_text` and `are_empty`;
  - the `filter`/`map` passes the helpers use.
- `ValueOrder`: the order `sortBy(answer, 'value')` uses, and a stable insertion
  sort by value.
- `ChoiceToggle`: the two `on_choice_toggled` rules.
- `Registry`:
  - the type table and its tags and display labels;
  - the loop that builds `TYPES_BY_DISPLAY`;
  - dispatch of a toggle to the rule of the question's type.
- `Conversion`:
  - the result datatype `Outcome`, which is `Safe`, `Lossy`, `BadCase` or `FellThrough`;
  - every helper;
  - the single-selection pass written as the source's loop with its flag;
  - the dispatcher, both over the five types (`Convert`) and over the stored
    string tags (`ConvertTags`).
- `ConversionProperties`: what each conversion path yields, path by path.
- `Scenarios`: concrete type changes and their outcomes.

Three behaviours of the code are worth stating up front:

- Changing a multiple-choice answer to free text is lossy when some choice has
  non-blank text, even when no choice is selected; the proposal is then `""`
  (`ConversionProperties.UnselectedTextIsStillLossy`, `Scenarios.UnselectedChoiceToFreeForm`).
- The proposal built from multiple-choice answers joins the *trimmed* texts of
  the selected choices.
- A target tag outside the five falls off the outer `switch` and returns
  `undefined`. This is the `FellThrough` outcome, distinct from the "bad case"
  error, which is raised only for a known target and an unknown source.

## Model

| member | source | states |
|---|---|---|
| `JsText.Trim` | src/meta.js:206 | `trim` leaves no whitespace at either end and never lengthens the text |
| `JsText.TrimIsInfix` | src/meta.js:206 | the trimmed text is the infix of the input left after removing a blank prefix and a blank suffix |
| `JsText.TrimIsEmptyIff` | src/meta.js:258 | `s.trim()` is empty exactly when every character of `s` is whitespace |
| `JsText.TrimIdempotent` | src/meta.js:206 | trimming twice is trimming once |
| `JsText.Join` | src/meta.js:220 | joining nothing gives `""`, joining one part gives that part, and otherwise the result starts with the first part |
| `JsText.JoinSnoc` | src/meta.js:220 | appending a part appends the separator and that part to the joined text, so `join` lays the parts out in order with the separator between neighbours |
| `Answers.HasTextIff` | src/meta.js:254-259 | `has_text` holds exactly when the choice's text is not all whitespace |
| `Answers.AreEmptyIff` | src/meta.js:247-252 | `are_empty` holds exactly when every text is blank, so it holds of the empty sequence |
| `Answers.Selected` | src/meta.js:217-218 | the `filter(a => a.value)` pass keeps only truthy choices and never lengthens the sequence |
| `Answers.SelectedMultiset` | src/meta.js:217-218 | the selection filter keeps each truthy choice as often as it occurs, and nothing else |
| `Answers.NoneSelected` | src/meta.js:217-218 | with nothing selected, the selection filter yields nothing |
| `Answers.SelectedAppend` | src/meta.js:217-218 | the selection filter keeps the input order: it distributes over concatenation |
| `Answers.WithText` | src/meta.js:170 | the `filter(a => a.text.trim())` pass never lengthens the sequence |
| `Answers.WithTextHasText` | src/meta.js:170 | every choice the text filter keeps has non-blank text |
| `Answers.WithTextMultiset` | src/meta.js:170 | the text filter keeps each choice with text as often as it occurs, and nothing else |
| `Answers.KeepsNonBlank` | src/meta.js:170 | the text filter returns a sequence none of whose texts is blank unchanged |
| `Answers.WithTextAppend` | src/meta.js:230-231 | the text filter keeps the input order: it distributes over concatenation |
| `Answers.Texts` | src/meta.js:234 | `.map(a => a.text)` has one entry per choice, which is that choice's text |
| `Answers.TrimmedTexts` | src/meta.js:219 | `.map(a => a.text.trim())` has one entry per choice, which is that choice's trimmed text |
| `ValueOrder.ValLtIsStrictTotalOrder` | src/meta.js:233 | the order on values is irreflexive, transitive and total, as a sort key needs |
| `ValueOrder.ValLeTransitive` | src/meta.js:233 | "not greater than" on values is transitive |
| `ValueOrder.StrLtIrreflexive` | src/meta.js:233 | no string sorts before itself |
| `ValueOrder.StrLtTransitive` | src/meta.js:233 | string order is transitive |
| `ValueOrder.StrLtTotal` | src/meta.js:233 | of two distinct strings, one sorts before the other |
| `ValueOrder.InsertByValue` | src/meta.js:233 | inserting into a sorted sequence keeps it sorted and adds exactly that choice |
| `ValueOrder.SortByValue` | src/meta.js:233 | `sortBy(answer, 'value')` yields a sorted permutation of its input |
| `ValueOrder.InsertByValueStable` | src/meta.js:233 | among choices of one value, the inserted choice comes first and the others keep their order |
| `ValueOrder.SortByValueStable` | src/meta.js:233 | the sort is stable: choices of equal value keep their input order |
| `ValueOrder.WithValueCons` | src/meta.js:233 | picking out the choices of one value distributes over a leading choice |
| `ChoiceToggle.FindByKey` | src/meta.js:20 | `find` returns the first choice whose key matches, or nothing when none does |
| `ChoiceToggle.ToggleMultiple` | src/meta.js:58-66 | multiple answers: same length, keys and texts; only the toggled choices flip their selection; every other choice is unchanged |
| `ChoiceToggle.ToggleMultipleTwice` | src/meta.js:58-66 | toggling a multiple-answer choice twice restores a boolean-valued answer |
| `ChoiceToggle.ToggleSingle` | src/meta.js:19-26 | single answer: fails exactly when no choice has the key; otherwise same length, keys and texts, and unselected choices without the key unchanged |
| `ChoiceToggle.ToggleSingleOff` | src/meta.js:28-36 | toggling a selected choice sets its value to `false` and changes nothing else |
| `ChoiceToggle.ToggleSingleOn` | src/meta.js:38-49 | toggling an unselected choice sets the choices with its key to `true`, every other selected choice to `false`, and leaves the unselected ones alone |
| `ChoiceToggle.ToggleSingleKeepsAtMostOne` | src/meta.js:19-50 | with distinct keys, a single-answer toggle keeps at most one choice selected |
| `Registry.AllTypesListsEachTypeOnce` | src/meta.js:77 | `VALID_TYPES` lists each of the five types exactly once |
| `Registry.ParseType` | src/meta.js:94-165 | a tag names a type exactly when it is that type's tag |
| `Registry.ParseTag` | src/meta.js:77 | reading back a stored tag gives the type that was stored |
| `Registry.Config` | src/meta.js:6-75 | a component and an empty choice exist exactly for the choice types; the empty choice is `{text: '', value: false}` for the multiple-choice types and `{text: '', value: ''}` for `ordered`, with no key; `mc_single` has the single-select toggle rule, `mc_multiple` the multi-select one, and no other type has one |
| `Registry.DisplayInjective` | src/meta.js:79-81 | no two types share a display label, so the reverse index loses no type |
| `Registry.BuildTypesByDisplay` | src/meta.js:79-81 | the `forEach` maps every display label to its own type and holds nothing else |
| `Registry.OnChoiceToggled` | src/meta.js:19-66 | `mc_single` applies the single-answer rule and `mc_multiple` the multiple-answer rule; the toggle fails exactly for a type without a rule, or for a single answer whose key is missing; otherwise it keeps length, keys and texts, and with distinct keys a single answer keeps at most one choice selected |
| `Conversion.AllUnselected` | src/meta.js:181 | every choice is kept with its key and text and its value set to `false` |
| `Conversion.SingleFromMultiple` | src/meta.js:189-203 | same length, keys and texts; a selected choice stays selected exactly when no earlier one is selected, and becomes `false` otherwise; at most one stays selected, and one does if any was |
| `Conversion.FirstSelected` | src/meta.js:189-203 | the first selected choice has no selected choice before it |
| `Conversion.DemoteExtraSelections` | src/meta.js:189-203 | the `map` threading `encountered_true` computes exactly the position-by-position rule |
| `Conversion.OrderedFromMc` | src/meta.js:243-245 | every text is kept in place, with no key and value `''` |
| `Conversion.Convert` | src/meta.js:85-167 | every pair of the five types has a rule, never the bad case, and the result has the target type's shape |
| `Conversion.ConvertTags` | src/meta.js:85-175 | equal tags return the answer; an unknown target falls through; a known target with an unknown source is the bad case, carrying both tags; otherwise the result has the target's shape |
| `ConversionProperties.TagsDispatchToConvert` | src/meta.js:85-94 | on the tags of two distinct types, the string dispatch is the typed one |
| `ConversionProperties.Identity` | src/meta.js:90-92 | keeping the type returns the answer, safely, with no emptiness check |
| `ConversionProperties.FromTrueFalse` | src/meta.js:97-156 | a true/false answer is dropped silently: `""` for free text (97-98), `[]` for each choice type (129-130, 141-142, 155-156) |
| `ConversionProperties.ToTrueFalse` | src/meta.js:108-126 | the result is always `false`; it is lossy exactly when the free text, or some choice's text, is not blank |
| `ConversionProperties.McToFreeForm` | src/meta.js:215-226 | all texts blank gives a safe `""`; otherwise the proposal is the trimmed texts of the selected choices, in order, joined with `", "` |
| `ConversionProperties.UnselectedTextIsStillLossy` | src/meta.js:215-226 | with no choice selected but some text non-blank, the change is lossy and proposes `""` |
| `ConversionProperties.OrderedToFreeForm` | src/meta.js:228-241 | all texts blank gives a safe `""`; otherwise the proposal is the untrimmed texts of the non-blank choices, sorted by value, joined with `", "` |
| `ConversionProperties.OrderedProposalParts` | src/meta.js:230-233 | the proposal's choices are sorted by value, are exactly the non-blank choices, and keep the input order among equal values |
| `ConversionProperties.FreeFormToChoices` | src/meta.js:205-213 | free text to a choice type is always safe: nothing for blank text, otherwise one key-less choice with the trimmed text, valued `''` for `ordered` and `true` otherwise |
| `ConversionProperties.OneChoiceSequence` | src/meta.js:215-241 | on one choice, the filters keep it when it qualifies, and the maps and the sort leave it alone |
| `ConversionProperties.OneSelectedToFreeForm` | src/meta.js:215-226 | one selected, non-blank choice becomes its trimmed text, lossily |
| `ConversionProperties.OneOrderedToFreeForm` | src/meta.js:228-241 | one non-blank ordered choice becomes its untrimmed text, lossily |
| `ConversionProperties.NoChoiceToFreeForm` | src/meta.js:247-250 | an answer without choices becomes `""`, safely |
| `ConversionProperties.FreeFormRoundTrip` | src/meta.js:205-241 | free text taken to a choice type and back returns its trimmed self; the way there is safe, and the way back is lossy exactly when the text was not blank |
| `ConversionProperties.McMultipleToMcSingle` | src/meta.js:145-146 | multiple to single answer is safe and yields exactly the position-by-position rule: same length, keys and texts; the first selection is kept; every later selected choice gets `false`; every other choice is returned as it was; at most one stays selected |
| `ConversionProperties.OrderedToMc` | src/meta.js:177-187 | ordered to either multiple-choice type keeps every choice deselected, with the same proposal whether safe or lossy; lossy exactly when some choice has a defined value and non-blank text |
| `ConversionProperties.McSingleToMcMultiple` | src/meta.js:169-171 | single to multiple answers is safe and keeps, in order, exactly the non-blank choices, each as often as it occurs |
| `ConversionProperties.McToOrdered` | src/meta.js:133-135 | multiple choice to ordered is safe and keeps every text in place, with no key and value `''` |
| `Scenarios.EmptySequenceIsEmpty` | src/meta.js:248-250 | `are_empty([])` holds |
| `Scenarios.BlankChoiceIsEmpty` | src/meta.js:247-259 | a sequence whose only text is `"  "` is empty |
| `Scenarios.FilledChoiceIsNotEmpty` | src/meta.js:247-259 | a sequence whose text is `"x"` is not empty |
| `Scenarios.TrimHello` | src/meta.js:206 | `"  hello  "` is not blank and trims to `"hello"` |
| `Scenarios.SelectedChoiceToFreeForm` | src/meta.js:215-226 | selecting "Paris" of "Paris" and "Berlin" and switching to free text proposes `"Paris"` |
| `Scenarios.UnselectedChoiceToFreeForm` | src/meta.js:215-226 | an unselected "Paris" switched to free text proposes `""`, lossily |
| `Scenarios.PaddedTextToOrdered` | src/meta.js:205-213 | `"  hello  "` becomes one unpositioned choice `"hello"` |
| `Scenarios.BlankTextToOrdered` | src/meta.js:205-213 | blank free text becomes no choice at all |
| `Scenarios.TwoSelectionsToSingle` | src/meta.js:189-203 | two selections made single: the second is deselected, safely |
| `Scenarios.PositionedChoiceToTrueFalse` | src/meta.js:116-123 | an ordered choice `"x"` at position `'0'` made true/false is lossy, proposing `false` |

## Left out

- The Svelte components `Choice` and `OrderedChoice` are opaque tags (`ChoiceView`, `OrderedChoiceView`). Their rendering is not modelled.
- `AnswerConversionError` and the thrown `Error`: a throw is a value of `Outcome`. The bad case carries the two tags, not the message text.
- lodash `sortBy` is modelled by its contract: a stable insertion sort by value. Values order as booleans first (`false` before `true`), then strings, then `undefined` last. Strings compare by code point, not by UTF-16 code unit, so strings with characters outside the Basic Multilingual Plane may order differently from JavaScript. The coercing comparison JavaScript makes between a boolean and a string in one sort is not modelled.
- JavaScript's dynamic-typing failures are not modelled:
  - a choice whose `text` is not a string;
  - a `null` or `undefined` answer;
  - an answer whose shape does not match its type. `Convert` and `ConvertTags` require that the answer fit its type.
- `are_empty(undefined)` is not modelled, because every answer here has a shape. `are_empty([])` is (`Scenarios.EmptySequenceIsEmpty`).
- Keys are integers or absent. The source compares them with `===`, which equality here models for values of one type.
- `ChoiceToggle.ToggleSingle`: when no choice has the key, the source fails with a `TypeError` while reading `toggled.value`. Here the result is `None`, and no detail of that error is modelled.
- `Conversion.DemoteExtraSelections`: returns a fresh sequence rather than a JavaScript array. The source's `map` never updates its input in place, so no aliasing is lost.
- src/db/questions.js (the database client) and webpack.config.js (build configuration) are not part of this model.
