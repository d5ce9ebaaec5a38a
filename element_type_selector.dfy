/** The entity-type selector of the element edit form: search an existing entity, or pick a
    type and have a fresh IRI generated for a new one. */
module TypeSelector {
  import opened DataModel
  import opened Async
  import opened LabelSort

  /** `PLACEHOLDER_ELEMENT_TYPE`: the type a new, not yet typed element carries. */
  const PlaceholderElementType: ElementTypeIri := "http://ontodia.org/NewEntity"

  const RequiredMessage := "Required!"

  /** The form's value: the element being edited and its validation status. */
  datatype ElementValue = ElementValue(value: ElementModel, error: Option<string>, validated: bool)

  /** What the check of an existing entity needs of an element on the diagram:
      its IRI and the group it is shown in, if any. */
  datatype DiagramElement = DiagramElement(iri: ElementIri, group: Option<string>)

  // ---------------------------------------------------------------------------------------
  // Pure rules
  // ---------------------------------------------------------------------------------------

  /** `validateElementType`: 'Required!' while the placeholder type is still among the types. */
  function ValidateElementType(element: ElementModel): (r: Option<string>)
    ensures r == Some(RequiredMessage) <==> PlaceholderElementType in element.types
    ensures r == None <==> PlaceholderElementType !in element.types
  {
    if PlaceholderElementType in element.types then Some(RequiredMessage) else None
  }

  /** The value shown by the type `<select>`: the first type, or '' when there is none. */
  function SelectedValue(elementValue: ElementValue): (r: string)
    ensures elementValue.value.types != [] ==> r == elementValue.value.types[0]
    ensures elementValue.value.types == [] ==> r == ""
    ensures r == "" || r in elementValue.value.types
  {
    var types := elementValue.value.types;
    if |types| > 0 then types[0] else ""
  }

  /** The new element handed to `onChange` once its IRI is generated: the old value with IRI,
      types and label replaced. */
  function NewElementModel(base: ElementModel, newId: ElementIri, classId: ElementTypeIri, typeName: string): (r: ElementModel)
    ensures r.id == newId && r.types == [classId]
    ensures r.labels.values == [LocalizedString("New " + typeName, "")]
    ensures r.image == base.image && r.properties == base.properties
  {
    base.(id := newId, types := [classId], labels := Label([LocalizedString("New " + typeName, "")]))
  }

  /** A new element passes `validateElementType` exactly when its chosen type is not the
      placeholder, and the type selector then shows that type. */
  lemma NewElementValidation(base: ElementModel, newId: ElementIri, classId: ElementTypeIri, typeName: string, v: ElementValue)
    requires v.value == NewElementModel(base, newId, classId, typeName)
    ensures ValidateElementType(v.value).None? <==> classId != PlaceholderElementType
    ensures SelectedValue(v) == classId
  {
  }

  /** `view.model.elements.find(({iri, group}) => iri === element.id && group === undefined)`,
      read as a boolean (an element object is always truthy). */
  predicate IsAlreadyOnDiagram(element: ElementModel, diagram: seq<DiagramElement>): (r: bool)
    ensures r <==> DiagramElement(element.id, None) in diagram
  {
    exists i :: 0 <= i < |diagram| && diagram[i].iri == element.id && diagram[i].group.None?
  }

  /** `elementTypes.find(type => element.types.indexOf(type) >= 0)`: the first candidate type
      the element has. */
  function FirstSharedType(elementTypes: seq<ElementTypeIri>, element: ElementModel): (r: Option<ElementTypeIri>)
    ensures r.None? <==> forall t :: t in elementTypes ==> t !in element.types
    ensures r.Some? ==> exists i :: 0 <= i < |elementTypes| && elementTypes[i] == r.value && IsFirstShared(elementTypes, element, i)
  {
    if elementTypes == [] then None
    else if elementTypes[0] in element.types then
      assert IsFirstShared(elementTypes, element, 0);
      Some(elementTypes[0])
    else
      var r := FirstSharedType(elementTypes[1..], element);
      assert forall t :: t in elementTypes ==> t == elementTypes[0] || t in elementTypes[1..];
      if r.Some? then
        ghost var i :| 0 <= i < |elementTypes[1..]| && elementTypes[1..][i] == r.value && IsFirstShared(elementTypes[1..], element, i);
        assert IsFirstShared(elementTypes, element, i + 1);
        r
      else r
  }

  /** `elementTypes[i]` is the first candidate type the element has. */
  predicate IsFirstShared(elementTypes: seq<ElementTypeIri>, element: ElementModel, i: nat)
    requires i < |elementTypes|
  {
    elementTypes[i] in element.types && forall k :: 0 <= k < i ==> elementTypes[k] !in element.types
  }

  /** `Boolean(elementTypes.find(...))`: the found IRI must also be truthy, so a first match
      that is the empty string does not count. */
  predicate HasAppropriateType(elementTypes: seq<ElementTypeIri>, element: ElementModel): (r: bool)
    ensures r ==> exists t :: t in element.types && t in elementTypes && t != ""
  {
    match FirstSharedType(elementTypes, element)
    case Some(t) => t != ""
    case None => false
  }

  /** For non-empty type IRIs, an element has an appropriate type exactly when one of its types
      is a candidate type. */
  lemma AppropriateTypeIsSharedType(elementTypes: seq<ElementTypeIri>, element: ElementModel)
    requires "" !in elementTypes
    ensures HasAppropriateType(elementTypes, element) <==> exists t :: t in element.types && t in elementTypes
  {
  }

  /** The truthiness test as written: when the first candidate the element has is the empty
      IRI, the element has no appropriate type, even if it also has a later candidate. */
  lemma EmptyIriHidesLaterMatch(elementTypes: seq<ElementTypeIri>, element: ElementModel, i: nat)
    requires i < |elementTypes| && elementTypes[i] == "" && "" in element.types
    requires forall k :: 0 <= k < i ==> elementTypes[k] !in element.types
    ensures !HasAppropriateType(elementTypes, element)
  {
    var r := FirstSharedType(elementTypes, element);
    assert IsFirstShared(elementTypes, element, i);
    var j :| 0 <= j < |elementTypes| && elementTypes[j] == r.value && IsFirstShared(elementTypes, element, j);
    assert !(j < i) && !(i < j);
  }

  /** The disabled rule of `renderExistingElementsList` AS WRITTEN: `elementTypes.find` is
      evaluated even while `elementTypes` is still undefined, which throws (None here). */
  function ListEntryDisabledAsWritten(element: ElementModel, diagram: seq<DiagramElement>, elementTypes: Option<seq<ElementTypeIri>>): (r: Option<bool>)
    ensures r.None? <==> elementTypes.None?
    ensures elementTypes.Some? ==> r == Some(ListEntryDisabled(element, diagram, elementTypes))
  {
    match elementTypes
    case None => None
    case Some(types) => Some(IsAlreadyOnDiagram(element, diagram) || !HasAppropriateType(types, element))
  }

  /** The rendering throws for any listed element while the candidate types are not known yet,
      e.g. when no metadata API is configured and the search finds one element. */
  lemma ListThrowsWithoutTypes(element: ElementModel, diagram: seq<DiagramElement>)
    ensures ListEntryDisabledAsWritten(element, diagram, None) == None
  {
  }

  /** The disabled rule as intended: unknown candidate types are read as no candidate types. */
  function ListEntryDisabled(element: ElementModel, diagram: seq<DiagramElement>, elementTypes: Option<seq<ElementTypeIri>>): bool
  {
    var types := match elementTypes case Some(t) => t case None => [];
    IsAlreadyOnDiagram(element, diagram) || !HasAppropriateType(types, element)
  }

  /** An existing element is disabled exactly when it is already on the diagram outside any
      group, or none of its types is a candidate type (candidate IRIs being non-empty). */
  lemma ListEntryDisabledRule(element: ElementModel, diagram: seq<DiagramElement>, elementTypes: Option<seq<ElementTypeIri>>)
    requires elementTypes.Some? ==> "" !in elementTypes.value
    ensures ListEntryDisabled(element, diagram, elementTypes) <==>
      DiagramElement(element.id, None) in diagram
      || (elementTypes.None? || forall t :: t in element.types ==> t !in elementTypes.value)
  {
  }

  /** An element already on the diagram is disabled even when its type is a candidate. */
  lemma OnDiagramIsDisabled(element: ElementModel, diagram: seq<DiagramElement>, elementTypes: Option<seq<ElementTypeIri>>)
    requires DiagramElement(element.id, None) in diagram
    ensures ListEntryDisabled(element, diagram, elementTypes)
  {
  }

  /** `Object.keys(elements).map(key => elements[key])`, with the key order given: the filter's
      result values, each once. */
  function ListValues(elements: map<ElementIri, ElementModel>, keys: seq<ElementIri>): (r: seq<ElementModel>)
    requires KeyOrder(elements, keys)
    ensures |r| == |keys| == |elements|
    ensures forall e :: e in r <==> e in elements.Values
    ensures forall i :: 0 <= i < |r| ==> r[i] == elements[keys[i]]
  {
    var r := seq(|keys|, i requires 0 <= i < |keys| => elements[keys[i]]);
    KeyedValuesAreValues(elements, keys, r);
    r
  }

  /** `keys` lists every key of `elements` once. */
  predicate KeyOrder(elements: map<ElementIri, ElementModel>, keys: seq<ElementIri>)
  {
    && (forall k :: k in keys ==> k in elements)
    && (forall k :: k in elements ==> k in keys)
    && (forall i, j :: 0 <= i < j < |keys| ==> keys[i] != keys[j])
  }

  lemma {:induction false} DistinctKeysCount(keys: seq<ElementIri>)
    requires forall i, j :: 0 <= i < j < |keys| ==> keys[i] != keys[j]
    ensures |set k | k in keys| == |keys|
    decreases |keys|
  {
    if keys != [] {
      var tail := keys[1..];
      DistinctKeysCount(tail);
      assert (set k | k in keys) == (set k | k in tail) + {keys[0]};
      assert keys[0] !in tail;
    }
  }

  /** Looking up every key of `elements` once, in any order, yields exactly its values, as
      many as it has entries. */
  lemma KeyedValuesAreValues(elements: map<ElementIri, ElementModel>, keys: seq<ElementIri>, r: seq<ElementModel>)
    requires KeyOrder(elements, keys)
    requires |r| == |keys| && forall i :: 0 <= i < |r| ==> r[i] == elements[keys[i]]
    ensures |r| == |elements|
    ensures forall e :: e in r <==> e in elements.Values
  {
    DistinctKeysCount(keys);
    assert (set k | k in keys) == elements.Keys;
    forall e | e in elements.Values ensures e in r {
      var k :| k in elements && elements[k] == e;
      var i :| 0 <= i < |keys| && keys[i] == k;
      assert r[i] == e;
    }
  }

  // ---------------------------------------------------------------------------------------
  // The component
  // ---------------------------------------------------------------------------------------

  /** The part of the component's state that rendering uses. */
  datatype SelectorState = SelectorState(
    elementTypes: Option<seq<ElementTypeIri>>,
    searchString: string,
    isLoading: bool,
    existingElements: seq<ElementModel>)

  /** A filter query sent to the data provider: the search text and the signal guarding it. */
  datatype FilterRequest = FilterRequest(text: string, signal: Cancellation)

  /** The request for candidate types: the dragged-from element it is about and the signal guarding it. */
  datatype TypesRequest = TypesRequest(source: ElementModel, signal: Cancellation)

  /** An IRI generation request and what its continuation captured: the signal and the chosen type. */
  datatype NewIriRequest = NewIriRequest(signal: Cancellation, classId: ElementTypeIri)

  /** The `ElementTypeSelector` component. Each asynchronous completion is an event method that
      is handed the signal captured when its request was issued; callbacks to the parent
      (`onChange`) are the methods' results. */
  class ElementTypeSelector {
    // props
    const metadataApiPresent: bool
    const source: ElementModel
    const elementValue: ElementValue
    /** The display label of a type, used for sorting. */
    const typeLabel: ElementTypeIri -> string
    /** The localized name of a type, used in a new element's label. */
    const typeName: ElementTypeIri -> string

    // state
    var elementTypes: Option<seq<ElementTypeIri>>
    var searchString: string
    var isLoading: bool
    var existingElements: seq<ElementModel>

    // cancellation scopes
    const cancellation: Cancellation
    var filterCancellation: Cancellation
    var newIriCancellation: Cancellation

    // the component's lifecycle and the requests it has issued
    ghost var mounted: bool
    ghost var unmounted: bool
    ghost var typesRequested: bool
    ghost var filterSignals: set<Cancellation>
    ghost var lastFilterText: string
    ghost var newIriSignals: set<Cancellation>
    /** The type each IRI request was issued for, as its continuation captured it. */
    ghost var newIriClass: map<Cancellation, ElementTypeIri>

    ghost predicate Valid()
      reads this, cancellation, filterCancellation, newIriCancellation, filterSignals, newIriSignals
    {
      // the three scopes are distinct, and each kind of request has its own signals
      && cancellation != filterCancellation && cancellation != newIriCancellation
      && filterCancellation != newIriCancellation
      && cancellation !in filterSignals && cancellation !in newIriSignals
      && filterSignals !! newIriSignals
      && filterCancellation !in newIriSignals && newIriCancellation !in filterSignals
      && newIriClass.Keys == newIriSignals
      && (typesRequested ==> metadataApiPresent && mounted)
      // every superseded request has been aborted
      && (forall c :: c in filterSignals && c != filterCancellation ==> c.aborted)
      && (forall c :: c in newIriSignals && c != newIriCancellation ==> c.aborted)
      // a non-empty search text always has its own request, the latest one
      && (searchString != "" ==> filterCancellation in filterSignals && lastFilterText == searchString)
      // the current scopes are aborted exactly once the component is unmounted
      && (unmounted ==> mounted)
      && cancellation.aborted == unmounted
      && filterCancellation.aborted == unmounted
      && newIriCancellation.aborted == unmounted
    }

    /** The rendered state. */
    function State(): SelectorState
      reads this
    {
      SelectorState(elementTypes, searchString, isLoading, existingElements)
    }

    constructor (metadataApiPresent: bool, source: ElementModel, elementValue: ElementValue,
                 typeLabel: ElementTypeIri -> string, typeName: ElementTypeIri -> string)
      ensures Valid()
      ensures this.metadataApiPresent == metadataApiPresent && this.source == source
      ensures this.elementValue == elementValue
      ensures this.typeLabel == typeLabel && this.typeName == typeName
      ensures State() == SelectorState(None, "", false, [])
      ensures !mounted && !unmounted && !typesRequested
      ensures filterSignals == {} && newIriSignals == {} && newIriClass == map[]
      ensures fresh(cancellation) && fresh(filterCancellation) && fresh(newIriCancellation)
    {
      this.metadataApiPresent := metadataApiPresent;
      this.source := source;
      this.elementValue := elementValue;
      this.typeLabel := typeLabel;
      this.typeName := typeName;
      elementTypes := None;
      searchString := "";
      isLoading := false;
      existingElements := [];
      cancellation := new Cancellation();
      filterCancellation := new Cancellation();
      newIriCancellation := new Cancellation();
      mounted := false;
      unmounted := false;
      typesRequested := false;
      filterSignals := {};
      lastFilterText := "";
      newIriSignals := {};
      newIriClass := map[];
    }

    /** `componentDidMount`: asks the metadata API for the candidate types, if there is one. */
    method Mount() returns (request: Option<TypesRequest>)
      requires Valid() && !mounted
      modifies this
      ensures Valid() && mounted && !unmounted
      ensures request == (if metadataApiPresent then Some(TypesRequest(source, cancellation)) else None)
      ensures typesRequested == metadataApiPresent
      ensures State() == old(State())
      ensures filterCancellation == old(filterCancellation) && newIriCancellation == old(newIriCancellation)
      ensures filterSignals == old(filterSignals) && newIriSignals == old(newIriSignals) && newIriClass == old(newIriClass)
      ensures lastFilterText == old(lastFilterText)
    {
      mounted := true;
      if !metadataApiPresent {
        request := None;
        return;
      }
      typesRequested := true;
      request := Some(TypesRequest(source, cancellation));
    }

    /** The candidate types arrive: unless the fetch was cancelled, they are sorted in place by
        label and become the state's `elementTypes`. */
    method TypesResolved(signal: Cancellation, fetched: array<ElementTypeIri>)
      requires Valid() && typesRequested && signal == cancellation
      modifies this, fetched
      ensures Valid()
      ensures old(signal.aborted) ==> State() == old(State()) && fetched[..] == old(fetched[..])
      ensures !old(signal.aborted) ==>
        && !unmounted
        && fetched[..] == SortedByLabel(typeLabel, old(fetched[..]))
        && State() == old(State()).(elementTypes := Some(fetched[..]))
      ensures filterCancellation == old(filterCancellation) && newIriCancellation == old(newIriCancellation)
      ensures filterSignals == old(filterSignals) && newIriSignals == old(newIriSignals) && newIriClass == old(newIriClass)
      ensures mounted == old(mounted) && unmounted == old(unmounted) && typesRequested
      ensures lastFilterText == old(lastFilterText)
    {
      if cancellation.aborted {
        return;
      }
      SortByLabel(fetched, typeLabel);
      elementTypes := Some(fetched[..]);
    }

    /** The search box changes (`setState({searchString})` followed by `componentDidUpdate`).
        A changed text clears the listed elements; a changed non-empty text also supersedes
        the previous filter request and issues a new one. */
    method SetSearchString(text: string) returns (request: Option<FilterRequest>)
      requires Valid() && mounted && !unmounted
      modifies this, filterCancellation
      ensures Valid() && searchString == text
      ensures mounted && !unmounted
      ensures elementTypes == old(elementTypes)
      ensures text == old(searchString) ==>
        State() == old(State()) && request.None? && filterCancellation == old(filterCancellation)
      ensures text != old(searchString) ==> existingElements == []
      ensures text == "" ==>
        isLoading == old(isLoading) && request.None? && filterCancellation == old(filterCancellation)
      ensures text != "" && text != old(searchString) ==>
        && isLoading
        && old(filterCancellation).aborted
        && fresh(filterCancellation)
        && request == Some(FilterRequest(text, filterCancellation))
        && filterSignals == old(filterSignals) + {filterCancellation}
        && lastFilterText == text
      ensures request.None? ==> filterSignals == old(filterSignals) && lastFilterText == old(lastFilterText)
      ensures newIriCancellation == old(newIriCancellation) && newIriSignals == old(newIriSignals) && newIriClass == old(newIriClass)
      ensures typesRequested == old(typesRequested)
    {
      if text == searchString {
        request := None;
      } else if text == "" {
        searchString := text;
        existingElements := [];
        request := None;
      } else {
        request := SearchExistingElements(text);
      }
    }

    /** `searchExistingElements` for a changed, non-empty text: clears the list, aborts the
        previous filter scope, opens a fresh one and issues the filter request under it. */
    method SearchExistingElements(text: string) returns (request: Option<FilterRequest>)
      requires Valid() && mounted && !unmounted && text != "" && text != searchString
      modifies this, filterCancellation
      ensures Valid() && mounted && !unmounted
      ensures State() == old(State()).(searchString := text, existingElements := [], isLoading := true)
      ensures old(filterCancellation).aborted && fresh(filterCancellation)
      ensures request == Some(FilterRequest(text, filterCancellation))
      ensures filterSignals == old(filterSignals) + {filterCancellation} && lastFilterText == text
      ensures newIriCancellation == old(newIriCancellation) && newIriSignals == old(newIriSignals) && newIriClass == old(newIriClass)
      ensures typesRequested == old(typesRequested)
    {
      searchString := text;
      existingElements := [];
      isLoading := true;
      filterCancellation.Abort();
      filterCancellation := new Cancellation();
      filterSignals := filterSignals + {filterCancellation};
      lastFilterText := text;
      request := Some(FilterRequest(text, filterCancellation));
    }

    /** The data provider answers a filter request: unless superseded or unmounted, its values
        become the listed elements and loading ends. */
    method FilterResolved(signal: Cancellation, elements: map<ElementIri, ElementModel>, keys: seq<ElementIri>)
      requires Valid() && signal in filterSignals && KeyOrder(elements, keys)
      modifies this
      ensures Valid()
      ensures old(signal.aborted) ==> State() == old(State())
      ensures !old(signal.aborted) <==> signal == filterCancellation && !unmounted
      ensures !old(signal.aborted) ==>
        State() == old(State()).(existingElements := ListValues(elements, keys), isLoading := false)
      ensures filterCancellation == old(filterCancellation) && newIriCancellation == old(newIriCancellation)
      ensures filterSignals == old(filterSignals) && newIriSignals == old(newIriSignals) && newIriClass == old(newIriClass)
      ensures mounted == old(mounted) && unmounted == old(unmounted)
      ensures typesRequested == old(typesRequested) && lastFilterText == old(lastFilterText)
    {
      if signal.aborted {
        return;
      }
      existingElements := ListValues(elements, keys);
      isLoading := false;
    }

    /** A type is picked in the `<select>` (`onElementTypeChange`): supersedes the previous IRI
        generation and asks the metadata API for an IRI for an element of that type. */
    method SelectType(classId: ElementTypeIri) returns (request: NewIriRequest)
      requires Valid() && mounted && !unmounted && metadataApiPresent
      modifies this, newIriCancellation
      ensures Valid() && mounted && !unmounted
      ensures State() == old(State()).(isLoading := true)
      ensures old(newIriCancellation).aborted && fresh(newIriCancellation)
      ensures request == NewIriRequest(newIriCancellation, classId)
      ensures newIriSignals == old(newIriSignals) + {newIriCancellation}
      ensures newIriClass == old(newIriClass)[newIriCancellation := classId]
      ensures filterCancellation == old(filterCancellation) && filterSignals == old(filterSignals)
      ensures typesRequested == old(typesRequested) && lastFilterText == old(lastFilterText)
    {
      isLoading := true;
      newIriCancellation.Abort();
      newIriCancellation := new Cancellation();
      newIriSignals := newIriSignals + {newIriCancellation};
      newIriClass := newIriClass[newIriCancellation := classId];
      request := NewIriRequest(newIriCancellation, classId);
    }

    /** The metadata API answers an IRI request: unless superseded or unmounted, loading ends
        and the parent's `onChange` receives the new element (the result). */
    method NewIriResolved(request: NewIriRequest, newId: ElementIri) returns (changed: Option<ElementModel>)
      requires Valid() && request.signal in newIriSignals && newIriClass[request.signal] == request.classId
      modifies this
      ensures Valid()
      ensures changed.Some? <==> !old(request.signal.aborted)
      ensures changed.Some? <==> request.signal == newIriCancellation && !unmounted
      ensures changed.None? ==> State() == old(State())
      ensures changed.Some? ==>
        && State() == old(State()).(isLoading := false)
        && changed.value == NewElementModel(elementValue.value, newId, request.classId, typeName(request.classId))
      ensures filterCancellation == old(filterCancellation) && newIriCancellation == old(newIriCancellation)
      ensures filterSignals == old(filterSignals) && newIriSignals == old(newIriSignals) && newIriClass == old(newIriClass)
      ensures mounted == old(mounted) && unmounted == old(unmounted)
      ensures typesRequested == old(typesRequested) && lastFilterText == old(lastFilterText)
    {
      if request.signal.aborted {
        changed := None;
        return;
      }
      isLoading := false;
      changed := Some(NewElementModel(elementValue.value, newId, request.classId, typeName(request.classId)));
    }

    /** `componentWillUnmount`: aborts all three scopes. */
    method Unmount()
      requires Valid() && mounted && !unmounted
      modifies this, cancellation, filterCancellation, newIriCancellation
      ensures Valid() && unmounted
      ensures cancellation.aborted && filterCancellation.aborted && newIriCancellation.aborted
      ensures State() == old(State())
      ensures filterCancellation == old(filterCancellation) && newIriCancellation == old(newIriCancellation)
      ensures filterSignals == old(filterSignals) && newIriSignals == old(newIriSignals) && newIriClass == old(newIriClass)
      ensures typesRequested == old(typesRequested) && lastFilterText == old(lastFilterText)
    {
      cancellation.Abort();
      filterCancellation.Abort();
      newIriCancellation.Abort();
      unmounted := true;
    }

    /** After unmounting every signal this component ever handed out is aborted, so no
        resolution can change its state any more. */
    lemma AllSignalsAbortedAfterUnmount()
      requires Valid() && unmounted
      ensures cancellation.aborted
      ensures forall c :: c in filterSignals ==> c.aborted
      ensures forall c :: c in newIriSignals ==> c.aborted
    {
    }

    /** While mounted, exactly the latest request of each kind is live. */
    lemma OnlyLatestRequestLive()
      requires Valid() && !unmounted
      ensures forall c :: c in filterSignals ==> (!c.aborted <==> c == filterCancellation)
      ensures forall c :: c in newIriSignals ==> (!c.aborted <==> c == newIriCancellation)
    {
    }
  }
}
