/** What a client of `ElementTypeSelector` can conclude, from the contracts alone, about
    sequences of events where requests resolve out of order or after the form was closed. */
module SelectorScenarios {
  import opened DataModel
  import opened Async
  import opened LabelSort
  import opened TypeSelector
  import ExampleMetadata

  /** Typing `first` and then `second`: the answer to `first` arrives last and is discarded,
      so the list shows the answer to the latest search and loading is over. */
  method LastSearchWins(
    metadataApiPresent: bool, source: ElementModel, value: ElementValue,
    typeLabel: ElementTypeIri -> string, typeName: ElementTypeIri -> string,
    first: string, second: string,
    staleAnswer: map<ElementIri, ElementModel>, staleKeys: seq<ElementIri>,
    latestAnswer: map<ElementIri, ElementModel>, latestKeys: seq<ElementIri>)
    returns (shown: seq<ElementModel>, loading: bool, text: string)
    requires first != "" && second != "" && first != second
    requires KeyOrder(staleAnswer, staleKeys) && KeyOrder(latestAnswer, latestKeys)
    ensures shown == ListValues(latestAnswer, latestKeys)
    ensures !loading && text == second
  {
    var selector := new ElementTypeSelector(metadataApiPresent, source, value, typeLabel, typeName);
    var _ := selector.Mount();
    var firstRequest := selector.SetSearchString(first);
    var secondRequest := selector.SetSearchString(second);
    selector.FilterResolved(secondRequest.value.signal, latestAnswer, latestKeys);
    selector.FilterResolved(firstRequest.value.signal, staleAnswer, staleKeys);
    shown, loading, text := selector.existingElements, selector.isLoading, selector.searchString;
  }

  /** A search, a type fetch and an IRI generation are all pending when the form closes: none
      of their answers changes the state, and `onChange` is not called. */
  method NothingAfterUnmount(
    source: ElementModel, value: ElementValue,
    typeLabel: ElementTypeIri -> string, typeName: ElementTypeIri -> string,
    text: string, classId: ElementTypeIri, newId: ElementIri,
    answer: map<ElementIri, ElementModel>, keys: seq<ElementIri>, fetched: array<ElementTypeIri>)
    returns (state: SelectorState, changed: Option<ElementModel>)
    requires text != "" && KeyOrder(answer, keys)
    modifies fetched
    ensures state == SelectorState(None, text, true, [])
    ensures changed == None
  {
    var selector := new ElementTypeSelector(true, source, value, typeLabel, typeName);
    var typesRequest := selector.Mount();
    var filterRequest := selector.SetSearchString(text);
    var iriRequest := selector.SelectType(classId);
    selector.Unmount();
    selector.TypesResolved(typesRequest.value.signal, fetched);
    selector.FilterResolved(filterRequest.value.signal, answer, keys);
    changed := selector.NewIriResolved(iriRequest, newId);
    state := selector.State();
  }

  /** Clearing the search box neither aborts the pending filter request nor resets loading:
      the answer to the cleared search still lands in the state. */
  method ClearedSearchStillReceivesAnswer(
    source: ElementModel, value: ElementValue,
    typeLabel: ElementTypeIri -> string, typeName: ElementTypeIri -> string,
    text: string, answer: map<ElementIri, ElementModel>, keys: seq<ElementIri>)
    returns (loadingBefore: bool, state: SelectorState)
    requires text != "" && KeyOrder(answer, keys)
    ensures loadingBefore
    ensures state == SelectorState(None, "", false, ListValues(answer, keys))
  {
    var selector := new ElementTypeSelector(false, source, value, typeLabel, typeName);
    var _ := selector.Mount();
    var request := selector.SetSearchString(text);
    var _ := selector.SetSearchString("");
    loadingBefore := selector.isLoading;
    selector.FilterResolved(request.value.signal, answer, keys);
    state := selector.State();
  }

  /** Picking a type twice: only the second pick's IRI produces the new element, which then
      passes type validation unless the placeholder type was picked. */
  method LastPickCreatesElement(
    source: ElementModel, value: ElementValue,
    typeLabel: ElementTypeIri -> string, typeName: ElementTypeIri -> string,
    firstType: ElementTypeIri, secondType: ElementTypeIri, firstId: ElementIri, secondId: ElementIri)
    returns (fromFirst: Option<ElementModel>, fromSecond: Option<ElementModel>, loading: bool)
    ensures fromFirst == None
    ensures fromSecond == Some(NewElementModel(value.value, secondId, secondType, typeName(secondType)))
    ensures fromSecond.value.types == [secondType]
    ensures ValidateElementType(fromSecond.value).None? <==> secondType != PlaceholderElementType
    ensures !loading
  {
    var selector := new ElementTypeSelector(true, source, value, typeLabel, typeName);
    var _ := selector.Mount();
    var firstRequest := selector.SelectType(firstType);
    var secondRequest := selector.SelectType(secondType);
    fromSecond := selector.NewIriResolved(secondRequest, secondId);
    fromFirst := selector.NewIriResolved(firstRequest, firstId);
    loading := selector.isLoading;
  }

  /** Once the candidate types arrive, the state holds them sorted by label, as a permutation
      of what the metadata API returned. */
  method TypesArriveSorted(
    source: ElementModel, value: ElementValue,
    typeLabel: ElementTypeIri -> string, typeName: ElementTypeIri -> string,
    fetched: array<ElementTypeIri>)
    returns (types: seq<ElementTypeIri>)
    modifies fetched
    ensures SortedBy(typeLabel, types)
    ensures multiset(types) == multiset(old(fetched[..]))
  {
    var selector := new ElementTypeSelector(true, source, value, typeLabel, typeName);
    var request := selector.Mount();
    ghost var input := fetched[..];
    selector.TypesResolved(request.value.signal, fetched);
    types := selector.elementTypes.value;
    SortedByLabelIsSorted(typeLabel, input);
    SortedByLabelPermutes(typeLabel, input);
  }

  /** Without a metadata API the candidate types never arrive, yet a search still lists its
      results: rendering each listed element evaluates `elementTypes.find` on undefined and
      throws (`None`). */
  method ListRenderThrowsWithoutMetadataApi(
    source: ElementModel, value: ElementValue,
    typeLabel: ElementTypeIri -> string, typeName: ElementTypeIri -> string,
    text: string, answer: map<ElementIri, ElementModel>, keys: seq<ElementIri>, diagram: seq<DiagramElement>)
    returns (state: SelectorState, rendered: seq<Option<bool>>)
    requires text != "" && KeyOrder(answer, keys) && |answer| > 0
    ensures state.elementTypes.None? && !state.isLoading && state.searchString == text
    ensures |state.existingElements| == |answer| && |rendered| == |answer|
    ensures forall i :: 0 <= i < |rendered| ==> rendered[i].None?
  {
    var selector := new ElementTypeSelector(false, source, value, typeLabel, typeName);
    var _ := selector.Mount();
    var request := selector.SetSearchString(text);
    selector.FilterResolved(request.value.signal, answer, keys);
    state := selector.State();
    var listed := state.existingElements;
    rendered := seq(|listed|, i requires 0 <= i < |listed| => ListEntryDisabledAsWritten(listed[i], diagram, state.elementTypes));
  }

  /** Every type the example metadata API offers yields a new element that passes
      `validateElementType`: none of them is the placeholder. */
  lemma ExampleTypesPassValidation(source: ElementModel, base: ElementModel, newId: ElementIri, typeName: ElementTypeIri -> string)
    ensures forall t :: t in ExampleMetadata.TypesOfElementsDraggedFrom(source) ==>
      ValidateElementType(NewElementModel(base, newId, t, typeName(t))).None?
  {
  }

  /** A Class element just created through the selector, and a new link drawn from it: the
      example validation reports both. */
  lemma NewClassElementRejectsNewLink(base: ElementModel, newId: ElementIri, typeName: string, link: LinkModel)
    requires link.sourceId == newId
    ensures var target := NewElementModel(base, newId, ExampleMetadata.SchemaClass, typeName);
      var event := ExampleMetadata.ValidationEvent(target, ExampleMetadata.AuthoringState([ExampleMetadata.LinkChange(None, link)]));
      ExampleMetadata.Validation(event) == [
        ExampleMetadata.LinkOperation(link, [ExampleMetadata.ValidationError(ExampleMetadata.ClassLinkMessage)]),
        ExampleMetadata.ElementOperation(newId, [ExampleMetadata.ValidationError(ExampleMetadata.ClassLinkMessage)])]
  {
  }

  /** The disabled rule over the example API's types, as the selector stores them (sorted by
      label): a found element is disabled exactly when it is on the diagram outside any group,
      or it is neither an OWL class nor an OWL object property. */
  lemma ExampleListEntryDisabledRule(source: ElementModel, typeLabel: ElementTypeIri -> string, element: ElementModel, diagram: seq<DiagramElement>)
    ensures ListEntryDisabled(element, diagram, Some(SortedByLabel(typeLabel, ExampleMetadata.TypesOfElementsDraggedFrom(source)))) <==>
      DiagramElement(element.id, None) in diagram
      || (ExampleMetadata.SchemaClass !in element.types && ExampleMetadata.SchemaObjectProperty !in element.types)
  {
    var types := ExampleMetadata.TypesOfElementsDraggedFrom(source);
    var sorted := SortedByLabel(typeLabel, types);
    SortedByLabelPermutes(typeLabel, types);
    forall t ensures t in sorted <==> t in types {
      assert t in sorted <==> t in multiset(sorted);
      assert t in types <==> t in multiset(types);
    }
    ListEntryDisabledRule(element, diagram, Some(sorted));
  }
}
