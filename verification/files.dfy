/** The file system as the PDF utilities see it: a map from path to entry.
    A PDF document is its sequence of pages, and a page is an opaque value. */
module Files {
  import opened Paths

  /** One page of a PDF; its content is never inspected. */
  datatype Page = Page(content: string)

  /** What a path names. A directory carries what the two glob patterns
      for PDF files (flat and recursive) return for it, in the order the file system
      yields them. */
  datatype Entry =
    | Pdf(pages: seq<Page>)
    | Unreadable
    | Dir(matches: seq<Path>, deepMatches: seq<Path>)

  type FileSystem = map<Path, Entry>

  /** The exceptions the utilities raise, with the path they name. */
  datatype Error =
    | NotFound(path: Path)       // FileNotFoundError
    | NotPdf(path: Path)         // ValueError: not a .pdf extension
    | NoPages(path: Path)        // ValueError: no pages to split
    | NothingToMerge             // ValueError: empty input list
    | OutputExists(path: Path)   // FileExistsError
    | CannotOpen(path: Path)     // the PDF library cannot open the file

  datatype Result<T> = Ok(value: T) | Err(error: Error)

  /** Opening a path with the PDF library: its pages, or the error it raises. */
  function Open(fs: FileSystem, p: Path): (r: Result<seq<Page>>)
    ensures r.Ok? <==> p in fs && fs[p].Pdf?
    ensures r.Ok? ==> r.value == fs[p].pages
    ensures r.Err? ==> r.error == (if p in fs then CannotOpen(p) else NotFound(p))
  {
    if p !in fs then Err(NotFound(p))
    else match fs[p]
      case Pdf(pages) => Ok(pages)
      case _ => Err(CannotOpen(p))
  }
}
