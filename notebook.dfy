/** The executed notebook as the exporter reads it: cells, their tags and their
    captured output records, plus the errors the exporter raises. */
module NotebookData {

  datatype Option<+T> = None | Some(value: T)

  /** The exporter's exceptions, one per `raise` (or failing key lookup) in the source. */
  datatype Error =
    | MultipleSnippetTags(snippets: seq<string>)  // snippet_name: more than one `snippet:` tag
    | MissingTextPlain                             // text output: display record without `text/plain`
    | NoPng                                        // png_output: no image payload
    | MultiplePng                                  // png_output: more than one image payload
    | NoTable                                      // table_output: no fragment with `</table>`
    | MultipleTables                               // table_output: more than one such fragment
    | MalformedTable                               // table_output: the HTML parser refused the fragment
    | EmptyHeader                                  // table_output: `header[0]` on an empty header
    | NoBodyRows                                   // table_output: no column count to infer

  datatype Result<+T> = Success(value: T) | Failure(error: Error) {
    predicate IsFailure() { Failure? }
    function PropagateFailure<U>(): Result<U>
      requires Failure?
    {
      Failure(error)
    }
    function Extract(): T
      requires Success?
    {
      value
    }
  }

  /** The MIME-keyed payloads of a display or result record. Text payloads are lists of
      lines, as stored in the notebook file; the image is one base64 string. */
  datatype MimeBundle = MimeBundle(
    plain: Option<seq<string>>,   // "text/plain"
    png: Option<string>,          // "image/png"
    html: Option<seq<string>>     // "text/html"
  )

  /** One captured output record, discriminated by its `output_type`. */
  datatype Output =
    | Stream(name: string, text: seq<string>)   // "stream", name "stdout" or "stderr"
    | DisplayData(data: MimeBundle)              // "display_data"
    | ExecuteResult(data: MimeBundle)            // "execute_result"
    | OtherOutput(outputType: string)            // any other kind, e.g. "error"
  {
    /** The record is a display or result record. */
    predicate IsRich() { DisplayData? || ExecuteResult? }
  }

  /** One notebook cell. `tags` is `None` when the cell's metadata has no `tags` key. */
  datatype Cell = Cell(
    cellType: string,
    source: seq<string>,
    tags: Option<seq<string>>,
    outputs: seq<Output>
  )

  /** The loaded notebook: its cells and the language's file extension (such as ".py"). */
  datatype Notebook = Notebook(cells: seq<Cell>, fileExtension: string)

  /** The tags of a cell, the empty list when it has none. */
  function RawTags(c: Cell): seq<string> {
    if c.tags.Some? then c.tags.value else []
  }
}
