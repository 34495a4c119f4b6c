/** The publication record that the scraper writes to publications.json and the page reads back. */
module Records {
  import opened Wrappers

  /** The `links` object; "" stands for a link that is absent or empty. */
  datatype Links = Links(pdf: string, doi: string, code: string, scholar: string)

  /**
   * One entry of publications.json. A missing string field is "", a missing
   * or `null` year is `None`, and a missing `links` object is all "".
   */
  datatype Publication = Publication(
    title: string,
    authors: string,
    venue: string,
    year: Option<int>,
    summary: string,
    links: Links)
}
