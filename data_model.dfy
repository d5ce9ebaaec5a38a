/** The values the editor exchanges with its collaborators: elements, links and their labels.
    They are immutable snapshots; an update builds a new value. */
module DataModel {

  /** An optional value (a TypeScript `T | undefined`). */
  datatype Option<+T> = None | Some(value: T)

  type ElementIri = string
  type ElementTypeIri = string
  type LinkTypeIri = string
  type PropertyTypeIri = string

  /** A text with its language tag; the empty tag means "no language". */
  datatype LocalizedString = LocalizedString(text: string, lang: string)

  datatype Label = Label(values: seq<LocalizedString>)

  /** An entity of the graph: its IRI, its types, its label, an optional image and a property bag. */
  datatype ElementModel = ElementModel(
    id: ElementIri,
    types: seq<ElementTypeIri>,
    labels: Label,
    image: Option<string>,
    properties: map<PropertyTypeIri, seq<LocalizedString>>)

  /** A relation between two elements. */
  datatype LinkModel = LinkModel(
    linkTypeId: LinkTypeIri,
    sourceId: ElementIri,
    targetId: ElementIri,
    properties: map<PropertyTypeIri, seq<LocalizedString>>)
}
