/** The document outline as `fitz` returns it: `[level, title, page]` rows,
    with the one-entry default used when the document has none
    (main.py:41-43, helpers.py:32-34). */
module Toc {

  /** One outline row. `level` is carried but never read; `page` is the
      1-based start page, which `get_toc` reports as -1 for an entry whose
      target is not a page of the document. */
  datatype Entry = Entry(level: int, title: string, page: int)

  /** The one-entry outline that stands in for a missing one: a level-1
      entry titled "general" on page 1. */
  const DefaultOutline: seq<Entry> := [Entry(1, "general", 1)]

  /** The outline the conversion uses and returns: the default one when the
      document has no outline, the document's own otherwise. */
  function Outline(toc: seq<Entry>): (r: seq<Entry>)
    ensures |r| >= 1
    ensures |toc| > 0 ==> r == toc
    ensures |toc| == 0 ==> |r| == 1 && r[0].level == 1 && r[0].title == "general" && r[0].page == 1
  {
    if |toc| == 0 then DefaultOutline else toc
  }
}
