/** The example metadata and validation APIs shipped with the demo: a permissive metadata API
    with fixed answers, and one validation rule forbidding new links on OWL classes. */
module ExampleMetadata {
  import opened DataModel

  // The `schema` record: the OWL and RDFS vocabulary terms the example uses. `domain` and
  // `range` take the OWL prefix, as written.
  const SchemaClass: ElementTypeIri := "http://www.w3.org/2002/07/owl#Class"
  const SchemaObjectProperty: ElementTypeIri := "http://www.w3.org/2002/07/owl#ObjectProperty"
  const SchemaDomain: LinkTypeIri := "http://www.w3.org/2002/07/owl#domain"
  const SchemaRange: LinkTypeIri := "http://www.w3.org/2002/07/owl#range"
  const SchemaSubClassOf: LinkTypeIri := "http://www.w3.org/2000/01/rdf-schema#subClassOf"
  const SchemaSubPropertyOf: LinkTypeIri := "http://www.w3.org/2000/01/rdf-schema#subPropertyOf"

  const ClassLinkMessage := "Cannot add links from/to classes"

  // ---------------------------------------------------------------------------------------
  // ExampleMetadataApi: every answer is fixed (the delay and the cancellation token are unused)
  // ---------------------------------------------------------------------------------------

  function CanDropOnCanvas(source: ElementModel): (r: bool)
    ensures r
  {
    true
  }

  function CanDropOnElement(source: ElementModel, target: ElementModel): (r: bool)
    ensures r
  {
    true
  }

  function PossibleLinkTypes(source: ElementModel, target: ElementModel): (r: seq<LinkTypeIri>)
    ensures r == [
      "http://www.w3.org/2002/07/owl#domain", "http://www.w3.org/2002/07/owl#range",
      "http://www.w3.org/2000/01/rdf-schema#subClassOf", "http://www.w3.org/2000/01/rdf-schema#subPropertyOf"]
  {
    [SchemaDomain, SchemaRange, SchemaSubClassOf, SchemaSubPropertyOf]
  }

  function TypesOfElementsDraggedFrom(source: ElementModel): (r: seq<ElementTypeIri>)
    ensures r == ["http://www.w3.org/2002/07/owl#Class", "http://www.w3.org/2002/07/owl#ObjectProperty"]
  {
    [SchemaClass, SchemaObjectProperty]
  }

  function PropertiesForType(elementType: ElementTypeIri): (r: seq<PropertyTypeIri>)
    ensures r == []
  {
    []
  }

  function CanDeleteElement(element: ElementModel): (r: bool)
    ensures r
  {
    true
  }

  function CanCreateElement(elementType: ElementTypeIri): (r: bool)
    ensures r
  {
    true
  }

  function CanEditElement(element: ElementModel): (r: bool)
    ensures r
  {
    true
  }

  function CanLinkElement(element: ElementModel): (r: bool)
    ensures r
  {
    true
  }

  function CanDeleteLink(link: LinkModel, source: ElementModel, target: ElementModel): (r: bool)
    ensures r
  {
    true
  }

  function CanEditLink(link: LinkModel, source: ElementModel, target: ElementModel): (r: bool)
    ensures r
  {
    true
  }

  // ---------------------------------------------------------------------------------------
  // ExampleValidationApi
  // ---------------------------------------------------------------------------------------

  /** An authoring event of the editing session; no `before` state means the item was created. */
  datatype AuthoringEvent =
    | ElementChange(elementBefore: Option<ElementModel>, elementAfter: ElementModel)
    | LinkChange(linkBefore: Option<LinkModel>, linkAfter: LinkModel)

  datatype AuthoringState = AuthoringState(events: seq<AuthoringEvent>)

  /** What is validated: the target element, in the current authoring state. */
  datatype ValidationEvent = ValidationEvent(target: ElementModel, state: AuthoringState)

  datatype ValidationError = ValidationError(message: string)

  /** A validation result tagged with what it is about; its errors are already resolved. */
  datatype ValidationOperation =
    | LinkOperation(link: LinkModel, errors: seq<ValidationError>)
    | ElementOperation(element: ElementIri, errors: seq<ValidationError>)

  /** `isLinkConnectedToElement`: the link starts or ends at the element. */
  predicate IsLinkConnectedToElement(link: LinkModel, elementId: ElementIri)
  {
    link.sourceId == elementId || link.targetId == elementId
  }

  /** The `find` predicate of `validate`: a link creation touching the element. */
  predicate IsNewConnectedLink(e: AuthoringEvent, elementId: ElementIri)
  {
    e.LinkChange? && e.linkBefore.None? && IsLinkConnectedToElement(e.linkAfter, elementId)
  }

  /** The index of the first new link at `elementId`, if any. */
  function FirstNewConnectedLink(events: seq<AuthoringEvent>, elementId: ElementIri): (r: Option<nat>)
    ensures r.Some? ==> r.value < |events| && IsNewConnectedLink(events[r.value], elementId)
    ensures r.Some? ==> forall k :: 0 <= k < r.value ==> !IsNewConnectedLink(events[k], elementId)
    ensures r.None? ==> forall k :: 0 <= k < |events| ==> !IsNewConnectedLink(events[k], elementId)
  {
    if events == [] then None
    else if IsNewConnectedLink(events[0], elementId) then Some(0)
    else match FirstNewConnectedLink(events[1..], elementId)
      case Some(k) => Some(k + 1)
      case None => None
  }

  /** The reference definition of the rule: a Class target touched by a new link yields one
      error on that link and one on the target. */
  function Validation(event: ValidationEvent): (r: seq<ValidationOperation>)
    ensures |r| == 0 || |r| == 2
    ensures forall op :: op in r ==> op.errors == [ValidationError(ClassLinkMessage)]
    ensures |r| == 2 ==>
      && r[0].LinkOperation? && IsLinkConnectedToElement(r[0].link, event.target.id)
      && r[1] == ElementOperation(event.target.id, [ValidationError(ClassLinkMessage)])
  {
    if SchemaClass !in event.target.types then []
    else match FirstNewConnectedLink(event.state.events, event.target.id)
      case None => []
      case Some(i) =>
        [ LinkOperation(event.state.events[i].linkAfter, [ValidationError(ClassLinkMessage)]),
          ElementOperation(event.target.id, [ValidationError(ClassLinkMessage)]) ]
  }

  /** `ExampleValidationApi.validate`: searches the session's events for the first new link at
      the target, then pushes the two operations. `event` is a value and is not changed. */
  method Validate(event: ValidationEvent) returns (results: seq<ValidationOperation>)
    ensures results == Validation(event)
  {
    results := [];
    if SchemaClass in event.target.types {
      var events := event.state.events;
      var i := 0;
      while i < |events| && !IsNewConnectedLink(events[i], event.target.id)
        invariant 0 <= i <= |events|
        invariant forall k :: 0 <= k < i ==> !IsNewConnectedLink(events[k], event.target.id)
      {
        i := i + 1;
      }
      if i < |events| {
        results := results + [LinkOperation(events[i].linkAfter, [ValidationError(ClassLinkMessage)])];
        results := results + [ElementOperation(event.target.id, [ValidationError(ClassLinkMessage)])];
      }
    }
  }

  /** A target that is not an OWL class is never reported, whatever the events. */
  lemma NotClassNoOperations(event: ValidationEvent)
    requires "http://www.w3.org/2002/07/owl#Class" !in event.target.types
    ensures Validation(event) == []
  {
  }

  /** A Class target with a new link at it: exactly two operations, the first on the first such
      link's new state, the second on the target, each with exactly the one message. */
  lemma NewLinkOnClassReported(event: ValidationEvent, i: nat)
    requires SchemaClass in event.target.types
    requires i < |event.state.events| && IsNewConnectedLink(event.state.events[i], event.target.id)
    requires forall k :: 0 <= k < i ==> !IsNewConnectedLink(event.state.events[k], event.target.id)
    ensures Validation(event) == [
      LinkOperation(event.state.events[i].linkAfter, [ValidationError("Cannot add links from/to classes")]),
      ElementOperation(event.target.id, [ValidationError("Cannot add links from/to classes")])]
  {
  }

  /** A Class target without any new link at it (only element changes, link updates or
      deletions, or links elsewhere) is not reported. */
  lemma NoNewLinkNoOperations(event: ValidationEvent)
    requires forall k :: 0 <= k < |event.state.events| ==>
      var e := event.state.events[k];
      e.ElementChange? || e.linkBefore.Some? || (e.linkAfter.sourceId != event.target.id && e.linkAfter.targetId != event.target.id)
    ensures Validation(event) == []
  {
  }

  /** The reported link is one the session created: some new-link event carries it. */
  lemma ReportedLinkWasCreated(event: ValidationEvent)
    requires |Validation(event)| == 2
    ensures exists k :: 0 <= k < |event.state.events| && event.state.events[k] == LinkChange(None, Validation(event)[0].link)
  {
  }
}
