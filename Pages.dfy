/** The page, header and link records the translator and the validators pass
    around. Only the fields that the modelled code reads or writes are kept. */
module Pages {
  import opened Wrappers

  /** A link found in a page's body. */
  datatype Link = Link(text: string, target: string)

  /** A front-matter value: a string or a list of strings. */
  datatype MetaValue = MStr(s: string) | MList(items: seq<string>)

  /** Python truthiness of a front-matter value: non-empty. */
  predicate MetaTruthy(v: MetaValue) {
    match v
    case MStr(s) => s != []
    case MList(items) => items != []
  }

  /** What `for item in value` walks over: the list's items, or the
      string's characters one by one. */
  function MetaItems(v: MetaValue): seq<string> {
    match v
    case MStr(s) => seq(|s|, i requires 0 <= i < |s| => [s[i]])
    case MList(items) => items
  }

  /** Python truthiness of an optional string field: present and non-empty. */
  predicate Truthy(s: Option<string>) {
    s.Some? && s.value != []
  }

  /** The front matter of a page. */
  datatype Header = Header(
    title: Option<string>,
    description: Option<string>,
    slug: Option<string>,
    displayedSidebar: Option<string>,
    imports: Option<string>,
    metadata: map<string, MetaValue>,
    body: string)

  /** A markdown page: its file name, its body, its front matter and the
      links in its body. */
  datatype Page = Page(filename: string, content: string, header: Header, links: seq<Link>)
}
