# Ontodia entity-type selector and example validation, in Dafny

This project models two pieces of the Ontodia diagram editor.

**The entity-type selector** (`ElementTypeSelector` in `src/ontodia/forms/elementTypeSelector.tsx`).
It is the form control where the user either searches for an existing entity or picks a type
for a new one. It holds four state fields: the candidate types, the search text, a loading
flag and the found elements. It also holds three cancellation scopes: one for the type fetch,
one for the search filter and one for IRI generation. Here it is a Dafny `class` with those
fields. Each asynchronous completion is an event method, given the signal that was
captured when its request was issued:

- `Mount`
- `SetSearchString`
- `FilterResolved`
- `TypesResolved`
- `SelectType`
- `NewIriResolved`
- `Unmount`

A cancellation scope is an object with a one-way `aborted` latch. Ghost sets record every
signal handed out. The object invariant `Valid()` says that every superseded signal is aborted,
and that all signals are aborted once the component is unmounted. With that invariant, "last
request wins" and "nothing happens after unmount" become properties of a sequential state
machine. The candidate types are sorted in place by an insertion sort on an `array`. It is
proved equal to a reference stable sort, which is proved sorted by label and a permutation of
its input. The form's pure rules are functions with lemmas:

- the label comparator;
- the disabled rule for listed elements;
- the value of the type `<select>`;
- the new element given to `onChange`;
- `validateElementType`.

**The example metadata and validation APIs** (`src/examples/resources/exampleMetadataApi.ts`).
The metadata API gives fixed answers. `validate` forbids new links on OWL classes. It is
modelled as a method that runs the `find` loop and the two pushes. That method is proved equal
to a reference function, and lemmas state the rule's cases about that function.

Modules:

- `DataModel`: the shared values (elements, links, labels, `Option`).
- `Async`: the cancellation latch.
- `LabelSort`: the ordinal order, the comparator and the sort.
- `TypeSelector`: the selector's rules and its class.
- `SelectorScenarios`: client methods that drive one selector through several events.
- `ExampleMetadata`: the example APIs.

The model follows the code where it makes a surprising choice: clearing
the search box (setting it to `''`) does not abort the pending filter request and does not
reset `isLoading`. The answer to the cleared search can still land in the state
(`SelectorScenarios.ClearedSearchStillReceivesAnswer`).

## Model

| member | source | states |
|---|---|---|
| `Async.Cancellation.constructor` | src/ontodia/forms/elementTypeSelector.tsx:42-44 | a new cancellation scope is not aborted |
| `Async.Cancellation.Abort` | src/ontodia/forms/elementTypeSelector.tsx:62-66 | aborting a scope latches `aborted` to true |
| `LabelSort.LessIsFirstDifference` | src/ontodia/forms/elementTypeSelector.tsx:74-77 | the ordinal `<` on labels holds exactly when the two agree up to a position where the first label ends and the second goes on, or where both go on and the first has the smaller character |
| `LabelSort.Less` | src/ontodia/forms/elementTypeSelector.tsx:74-77 | the JavaScript ordinal `<` on strings: the first differing character decides, and a proper prefix comes first (its contract is `LabelSort.LessIsFirstDifference`) |
| `LabelSort.CompareByLabel` | src/ontodia/forms/elementTypeSelector.tsx:68-81 | returns -1, 0 or 1. It returns -1 exactly when a's label is ordinally before b's, 1 exactly when it is after, and 0 exactly when the labels are equal |
| `LabelSort.LessIrreflexive` | src/ontodia/forms/elementTypeSelector.tsx:74-79 | no label is before itself under the ordinal `<` |
| `LabelSort.LessTransitive` | src/ontodia/forms/elementTypeSelector.tsx:74-79 | the ordinal `<` on labels is transitive |
| `LabelSort.LessTrichotomous` | src/ontodia/forms/elementTypeSelector.tsx:74-80 | of two labels, one is before the other or they are equal, so the comparator's 0 means equal labels |
| `LabelSort.LessAsymmetric` | src/ontodia/forms/elementTypeSelector.tsx:74-79 | two labels are never each before the other |
| `LabelSort.NotLessTransitive` | src/ontodia/forms/elementTypeSelector.tsx:74-79 | "not after" is transitive; ascending order is stated with it |
| `LabelSort.InsertPermutes` | src/ontodia/forms/elementTypeSelector.tsx:88 | inserting one type adds exactly that type to the multiset |
| `LabelSort.InsertKeepsSorted` | src/ontodia/forms/elementTypeSelector.tsx:88 | inserting into a label-sorted list keeps it sorted |
| `LabelSort.SortedByLabelIsSorted` | src/ontodia/forms/elementTypeSelector.tsx:88-89 | the sorted type list is ascending by label |
| `LabelSort.SortedByLabelPermutes` | src/ontodia/forms/elementTypeSelector.tsx:88-89 | the sorted type list is a permutation of the fetched list, of the same length |
| `LabelSort.InsertSplits` | src/ontodia/forms/elementTypeSelector.tsx:88 | a type goes right after the last entry whose label is not after its own |
| `LabelSort.InsertAt` | src/ontodia/forms/elementTypeSelector.tsx:88 | one pass of the in-place sort inserts `a[i]` into the sorted prefix and leaves the rest of the array unchanged |
| `LabelSort.SortByLabel` | src/ontodia/forms/elementTypeSelector.tsx:88 | the fetched array, sorted in place, equals the reference stable sort of its old contents |
| `TypeSelector.ValidateElementType` | src/ontodia/forms/elementTypeSelector.tsx:226-230 | gives 'Required!' exactly when the placeholder type is among the types, and no error otherwise |
| `TypeSelector.SelectedValue` | src/ontodia/forms/elementTypeSelector.tsx:148 | the `<select>` value is the first type when there is one, and '' otherwise; it is always '' or one of the types |
| `TypeSelector.NewElementModel` | src/ontodia/forms/elementTypeSelector.tsx:130-135 | the new element has the generated IRI, the types `[classId]` and the single label "New " + name with an empty language tag; its image and properties are those of the old value |
| `TypeSelector.NewElementValidation` | src/ontodia/forms/elementTypeSelector.tsx:124-134 | a new element passes `validateElementType` exactly when the chosen type is not the placeholder, and the type selector then shows that type |
| `TypeSelector.FirstSharedType` | src/ontodia/forms/elementTypeSelector.tsx:181 | the `find` over `elementTypes` finds nothing exactly when the element has none of the candidate types; otherwise it finds the earliest candidate type that the element has |
| `TypeSelector.IsAlreadyOnDiagram` | src/ontodia/forms/elementTypeSelector.tsx:178-180 | an element is already on the diagram exactly when the diagram holds an entry with its IRI and no group |
| `TypeSelector.HasAppropriateType` | src/ontodia/forms/elementTypeSelector.tsx:181 | when the truthiness test passes, the element has a non-empty type that is also a candidate type |
| `TypeSelector.AppropriateTypeIsSharedType` | src/ontodia/forms/elementTypeSelector.tsx:181 | when no candidate IRI is empty, "has an appropriate type" holds exactly when one of the element's types is a candidate type |
| `TypeSelector.EmptyIriHidesLaterMatch` | src/ontodia/forms/elementTypeSelector.tsx:181 | as written, whenever the first candidate the element has is the empty IRI, `Boolean(find(...))` is false, even if the element also has a later candidate |
| `TypeSelector.ListEntryDisabledAsWritten` | src/ontodia/forms/elementTypeSelector.tsx:178-186 | the disabled rule as written fails (throws) exactly when `elementTypes` is undefined; otherwise it agrees with the corrected rule |
| `TypeSelector.ListThrowsWithoutTypes` | src/ontodia/forms/elementTypeSelector.tsx:181 | while the candidate types are undefined, rendering any listed element throws |
| `TypeSelector.ListEntryDisabled` | src/ontodia/forms/elementTypeSelector.tsx:178-186 | the disabled rule of a listed element, with unknown candidate types read as none (its contract is `TypeSelector.ListEntryDisabledRule`) |
| `TypeSelector.ListEntryDisabledRule` | src/ontodia/forms/elementTypeSelector.tsx:178-186 | when no candidate IRI is empty, a listed element is disabled exactly when the diagram holds its IRI with no group, or the candidate types are unknown, or none of its types is a candidate type |
| `TypeSelector.OnDiagramIsDisabled` | src/ontodia/forms/elementTypeSelector.tsx:178-180 | an element already on the diagram outside any group is disabled, even if its type is a candidate |
| `TypeSelector.ListValues` | src/ontodia/forms/elementTypeSelector.tsx:107 | the listed elements are exactly the filter's result values, as many as there are results, and the i-th is the value under the i-th key |
| `TypeSelector.DistinctKeysCount` | src/ontodia/forms/elementTypeSelector.tsx:107 | a key list without repeats has as many distinct keys as entries |
| `TypeSelector.KeyedValuesAreValues` | src/ontodia/forms/elementTypeSelector.tsx:107 | looking up each key of a result once, in any order, gives exactly the result's values, one per entry |
| `TypeSelector.ElementTypeSelector.constructor` | src/ontodia/forms/elementTypeSelector.tsx:42-48 | the initial state is an empty search, no found elements, no candidate types and not loading, with three fresh unaborted scopes |
| `TypeSelector.ElementTypeSelector.Mount` | src/ontodia/forms/elementTypeSelector.tsx:83-86 | on mount the types of elements dragged from `source` are requested, under the component's own scope, exactly when a metadata API is present; the request carries that `source`; the state is unchanged |
| `TypeSelector.ElementTypeSelector.TypesResolved` | src/ontodia/forms/elementTypeSelector.tsx:86-90 | an aborted fetch changes nothing. Otherwise the fetched array is sorted in place and becomes `elementTypes`, and nothing else changes |
| `TypeSelector.ElementTypeSelector.SetSearchString` | src/ontodia/forms/elementTypeSelector.tsx:55-60 | an unchanged text changes nothing. A changed text clears the found elements. An empty text issues no request and leaves `isLoading` and the filter scope alone. A non-empty text aborts the old filter scope, opens a fresh one, sets `isLoading` and issues a request for that text |
| `TypeSelector.ElementTypeSelector.SearchExistingElements` | src/ontodia/forms/elementTypeSelector.tsx:93-104 | for a changed non-empty text: the list is cleared and `isLoading` set, the previous filter signal is aborted, and the request carries the text and a fresh signal, now the latest one |
| `TypeSelector.ElementTypeSelector.FilterResolved` | src/ontodia/forms/elementTypeSelector.tsx:105-108 | an answer is applied exactly when it belongs to the latest filter request and the component is mounted. Applying it sets the found elements to the results and clears `isLoading`; an answer not applied changes nothing |
| `TypeSelector.ElementTypeSelector.SelectType` | src/ontodia/forms/elementTypeSelector.tsx:113-125 | picking a type sets `isLoading`, aborts the previous IRI scope, opens a fresh one, records the picked type for that fresh signal, and issues a request for that type |
| `TypeSelector.ElementTypeSelector.NewIriResolved` | src/ontodia/forms/elementTypeSelector.tsx:125-135 | the request must be one the component issued, carrying the type picked with its signal. `onChange` is called exactly when the IRI belongs to the latest pick and the component is mounted. It then clears `isLoading` and passes the new element built from the form's value and that picked type; otherwise nothing changes |
| `TypeSelector.ElementTypeSelector.Unmount` | src/ontodia/forms/elementTypeSelector.tsx:62-66 | unmounting aborts all three scopes and changes no state |
| `TypeSelector.ElementTypeSelector.AllSignalsAbortedAfterUnmount` | src/ontodia/forms/elementTypeSelector.tsx:62-66 | after unmount every signal the component ever handed out is aborted |
| `TypeSelector.ElementTypeSelector.OnlyLatestRequestLive` | src/ontodia/forms/elementTypeSelector.tsx:98-118 | while mounted, a filter or IRI signal is live exactly when it belongs to the latest request of its kind |
| `SelectorScenarios.LastSearchWins` | src/ontodia/forms/elementTypeSelector.tsx:98-108 | after two searches whose answers arrive newest first, the list shows the latest answer and loading is over |
| `SelectorScenarios.NothingAfterUnmount` | src/ontodia/forms/elementTypeSelector.tsx:62-66 | answers to a type fetch, a search and an IRI request that arrive after unmount change nothing, and `onChange` is not called |
| `SelectorScenarios.ClearedSearchStillReceivesAnswer` | src/ontodia/forms/elementTypeSelector.tsx:96-97 | clearing the search leaves `isLoading` set, and the pending answer to the cleared search still lands |
| `SelectorScenarios.LastPickCreatesElement` | src/ontodia/forms/elementTypeSelector.tsx:113-135 | of two type picks, only the later pick's IRI yields a new element; that element has the later type and passes validation unless it is the placeholder |
| `SelectorScenarios.TypesArriveSorted` | src/ontodia/forms/elementTypeSelector.tsx:86-89 | the types in the state are the fetched types, sorted ascending by label and permuted only |
| `SelectorScenarios.ListRenderThrowsWithoutMetadataApi` | src/ontodia/forms/elementTypeSelector.tsx:170-181 | without a metadata API, after a search whose answer is not empty, the list holds the results with loading over and no candidate types, and rendering every listed element throws |
| `SelectorScenarios.ExampleListEntryDisabledRule` | src/ontodia/forms/elementTypeSelector.tsx:178-186 | over the example API's types as stored (sorted), a found element is disabled exactly when the diagram holds it with no group, or it is neither owl#Class nor owl#ObjectProperty |
| `SelectorScenarios.ExampleTypesPassValidation` | src/examples/resources/exampleMetadataApi.ts:42-45 | each type the example API offers yields a new element that passes `validateElementType` |
| `SelectorScenarios.NewClassElementRejectsNewLink` | src/examples/resources/exampleMetadataApi.ts:97-111 | a new Class element created through the selector, with a link created from it, is reported on both the link and the element |
| `ExampleMetadata.CanDropOnCanvas` | src/examples/resources/exampleMetadataApi.ts:27-30 | always true |
| `ExampleMetadata.CanDropOnElement` | src/examples/resources/exampleMetadataApi.ts:32-35 | always true |
| `ExampleMetadata.PossibleLinkTypes` | src/examples/resources/exampleMetadataApi.ts:37-40 | exactly owl#domain, owl#range, rdfs#subClassOf and rdfs#subPropertyOf, in that order |
| `ExampleMetadata.TypesOfElementsDraggedFrom` | src/examples/resources/exampleMetadataApi.ts:42-45 | exactly owl#Class and owl#ObjectProperty, in that order |
| `ExampleMetadata.PropertiesForType` | src/examples/resources/exampleMetadataApi.ts:47-50 | always the empty list |
| `ExampleMetadata.CanDeleteElement` | src/examples/resources/exampleMetadataApi.ts:52-55 | always true |
| `ExampleMetadata.CanCreateElement` | src/examples/resources/exampleMetadataApi.ts:57-60 | always true |
| `ExampleMetadata.CanEditElement` | src/examples/resources/exampleMetadataApi.ts:62-65 | always true |
| `ExampleMetadata.CanLinkElement` | src/examples/resources/exampleMetadataApi.ts:67-70 | always true |
| `ExampleMetadata.CanDeleteLink` | src/examples/resources/exampleMetadataApi.ts:72-77 | always true |
| `ExampleMetadata.CanEditLink` | src/examples/resources/exampleMetadataApi.ts:79-84 | always true |
| `ExampleMetadata.FirstNewConnectedLink` | src/examples/resources/exampleMetadataApi.ts:91-95 | the `find` gives the first event that creates a link touching the target, or nothing when no event does |
| `ExampleMetadata.IsNewConnectedLink` | src/examples/resources/exampleMetadataApi.ts:91-95 | the `find` predicate: a link change with no before state whose new link touches the target |
| `ExampleMetadata.Validation` | src/examples/resources/exampleMetadataApi.ts:88-115 | there are always 0 or 2 operations, each with exactly the one error message. With 2, the first is a link touching the target and the second is the target element |
| `ExampleMetadata.Validate` | src/examples/resources/exampleMetadataApi.ts:88-115 | the search loop and the pushes compute exactly the reference rule `Validation` |
| `ExampleMetadata.NotClassNoOperations` | src/examples/resources/exampleMetadataApi.ts:89-90 | a target without owl#Class among its types gets no operations, whatever the events |
| `ExampleMetadata.NewLinkOnClassReported` | src/examples/resources/exampleMetadataApi.ts:97-111 | for a Class target whose first new connected link is event i: exactly two operations. First the link with event i's new state, then the element with the target's id, each with the single message 'Cannot add links from/to classes' |
| `ExampleMetadata.NoNewLinkNoOperations` | src/examples/resources/exampleMetadataApi.ts:91-97 | if every event is an element change, a link change with a before state, or a link away from the target, there are no operations |
| `ExampleMetadata.ReportedLinkWasCreated` | src/examples/resources/exampleMetadataApi.ts:91-100 | the reported link is the new state of an event that created it |

## Findings

| source | as written | input that shows it | evidently intended | confidence | as-written member | corrected member |
|---|---|---|---|---|---|---|
| src/ontodia/forms/elementTypeSelector.tsx:181 | `elementTypes.find(...)` is evaluated for each listed element, but `elementTypes` stays undefined until the type fetch resolves, and forever when no metadata API is given | no metadata API; search text "a"; the filter returns one element; rendering the list throws a TypeError | the list renders; with no candidate types known, no element has an appropriate type, so each is disabled | not executed; medium | `SelectorScenarios.ListRenderThrowsWithoutMetadataApi` | `TypeSelector.ListEntryDisabledRule` |

## Left out

- `src/ontodia/workspace/toolbar.tsx` is not modelled. It only shows or hides buttons and passes callbacks through.
- Rendering is not modelled: JSX, CSS classes, spinners, `ListElementView`, and the click on a listed element that calls `onChange` with that element.
- What renders is kept only as `State()` and the pure rules.
- Promise scheduling, `async`/`await`, `delay()` and `setTimeout` are not modelled. Each completion is an explicit event method, and each metadata answer is returned at once.
- The metadata API's cancellation token is not modelled either.
- The data provider's `filter` and `createRequest` are external. A `FilterRequest` carries the search text and its signal, but not the display language.
- `view.model.createClass`, `view.getElementTypeLabel` and `formatLocalizedLabel` are external. The component receives them as two given functions: `typeLabel` (for sorting) and `typeName` (for the new label).
- `generateNewElementIri` is external. The IRI is a parameter of `NewIriResolved`, and it is not assumed to be unique.
- `isLinkConnectedToElement`: its definition is not shown in the source; the model defines it as: the link's source id or target id equals the element's id.
- `Object.keys` order is not modelled. The key order of a filter result is a parameter: any list of the result's keys, each key once.
- `SelectType` requires a metadata API, because the source dereferences `metadataApi` without a check at line 125.
- `Mount` requires a component that is not mounted yet. `SetSearchString`, `SelectType` and `Unmount` require a mounted, not yet unmounted component. Both are the framework's lifecycle guarantees. Resolutions may come at any time.
- `NewIriResolved` requires that the request pairs a signal with the type picked with it. In the source one closure captures both, so no other pairing exists.
- A completion event may arrive more than once. The properties hold regardless.
- The props (metadata API presence, source, form value, label functions) are fixed for the selector's lifetime. A parent re-render with new props is not modelled, so `NewIriResolved` reads the form value that `onElementTypeChange` captured.
- `isLoading` starts undefined in the source. It is only tested for truthiness, so it is modelled as `false`.
- `PLACEHOLDER_ELEMENT_TYPE` is defined in `src/ontodia/data/schema.ts`, which is not part of this model. It is taken as `http://ontodia.org/NewEntity`. Only `ExampleTypesPassValidation` depends on its value, and only on it differing from the OWL IRIs.
- Other fields are not modelled: `ElementValue.error` and `validated` beyond being carried; the authoring events' other fields; `ValidationEvent`'s outbound links and cancellation token.
- `ElementModel` keeps id, types, label, image and properties. The label field is spelled `labels`, because `label` is a reserved word in Dafny. Any other optional field is carried along by `NewElementModel` in the same way.
- `LabelSort.Less`: Dafny characters are code points. JavaScript compares UTF-16 code units, and the two orders differ only for characters outside the Basic Multilingual Plane.
- `LabelSort.SortByLabel`: stability (equal labels keep their fetched order) holds by construction of the reference insertion sort. It is not stated as a separate lemma.
- `validateElementType` returns a promise in the source. The model returns the value it resolves to.
- `validate` wraps each error list in `Promise.resolve`; the model holds the plain list.
