/** A chunk of a loaded PDF as the application sees it: its text and the two metadata
    entries it reads, `source` (the PDF's path) and `page` (0-based page index). */
module Documents {
  import opened Decimal

  datatype Chunk = Chunk(pageContent: string, source: Option<string>, page: Option<int>)

  /** `doc.metadata.get('page', 0)` */
  function PageOf(c: Chunk): int {
    if c.page.Some? then c.page.value else 0
  }

  /** `document.metadata.get('source', '')` */
  function SourceOf(c: Chunk): string {
    if c.source.Some? then c.source.value else ""
  }
}
