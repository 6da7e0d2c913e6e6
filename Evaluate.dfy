/** The scorers of the evaluation run: the same link and front-matter checks
    as the validators, returned as `LinksValidation` and `HeadersValidation`
    records. */
module Evaluate {
  import opened Pages
  import Validate

  /** `LinksValidation`. */
  datatype LinksValidation = LinksValidation(linksMatch: bool, missingLinks: seq<string>, extraLinks: seq<string>, totalLinks: nat)

  /** `HeadersValidation`. */
  datatype HeadersValidation = HeadersValidation(titleMatch: bool, descriptionMatch: bool, slugMatch: bool,
                                                 displayedSidebarMatch: bool, importsMatch: bool)

  /** `validate_links(original_page, translated_page, model_output)`: the
      links match when no original link is missing from the translation and
      no translated link is extra. */
  function ValidateLinks(original: Page, translated: Page, eq: (Link, Link) -> bool): (r: LinksValidation)
    ensures r.linksMatch <==> Validate.Covered(original.links, translated.links, eq) && Validate.Covered(translated.links, original.links, eq)
    ensures r.linksMatch <==> r.missingLinks == [] && r.extraLinks == []
    ensures r.totalLinks == |original.links|
  {
    var missing := Validate.Missing(original.links, translated.links, eq);
    var extra := Validate.Missing(translated.links, original.links, eq);
    LinksValidation(|missing| == 0 && |extra| == 0, Validate.Targets(missing), Validate.Targets(extra), |original.links|)
  }

  /** `validate_headers(original_page, translated_page, model_output)`: one
      flag per front-matter field, true exactly when the field is the same
      on both pages. */
  function ValidateHeaders(original: Page, translated: Page): (r: HeadersValidation)
    ensures r.titleMatch <==> original.header.title == translated.header.title
    ensures r.descriptionMatch <==> original.header.description == translated.header.description
    ensures r.slugMatch <==> original.header.slug == translated.header.slug
    ensures r.displayedSidebarMatch <==> original.header.displayedSidebar == translated.header.displayedSidebar
    ensures r.importsMatch <==> original.header.imports == translated.header.imports
  {
    var o, t := original.header, translated.header;
    HeadersValidation(o.title == t.title, o.description == t.description, o.slug == t.slug,
                      o.displayedSidebar == t.displayedSidebar, o.imports == t.imports)
  }

  /** The evaluation scorers report, field for field, what the validators
      report on the same pair of pages. */
  lemma ScorersAgreeWithValidators(original: Page, translated: Page, eq: (Link, Link) -> bool)
    ensures var e, v := ValidateLinks(original, translated, eq), Validate.ValidateLinks(original, translated, eq);
      e.linksMatch == v.linksMatch && e.missingLinks == v.missingLinks
      && e.extraLinks == v.extraLinks && e.totalLinks == v.totalLinks
    ensures var e, v := ValidateHeaders(original, translated), Validate.ValidateHeaders(original, translated);
      e.titleMatch == v.titleMatch && e.descriptionMatch == v.descriptionMatch && e.slugMatch == v.slugMatch
      && e.displayedSidebarMatch == v.displayedSidebarMatch && e.importsMatch == v.importsMatch
  {
  }
}
