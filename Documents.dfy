/** The searchable document every part of the search feature exchanges. */
module Documents {
  import opened Wrappers

  /** The `type` tag shown to the user next to a result. */
  datatype Kind = Navigation | Heading | Content | Profile | Button

  /** One indexed, searchable unit: a navigation link, a heading with the
      text after it, a content block, a sidebar line, a button, or one of
      the fixed navigation entries. `href` is absent for a target that is not
      navigable (a button). The DOM element the source keeps beside it is
      not part of the model. */
  datatype Doc = Doc(
    id: string,
    title: string,
    kind: Kind,
    category: string,
    content: string,
    href: Option<string>,
    keywords: seq<string>)
}
