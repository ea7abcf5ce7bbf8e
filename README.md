# jupro notebook snippets, modelled in Dafny

jupro runs a Jupyter notebook and exports tagged code cells as snippet files for a
LaTeX document. Each such file is the cell's source, its text output, its one image,
its HTML rendered to PDF, or its one HTML table as a `tabularx` environment. This
project models the `Cell` view of `jupro/jupro.py`, which reads one executed cell and
builds those payloads, together with the per-cell decision in `create_snippets` of
which files to write. It then proves what that code promises.

Modules:

- `NotebookData` (`notebook.dfy`): cells, output records (stream, display data,
  execute result, other), MIME bundles, the notebook, and the exporter's errors as a
  `Result`.
- `Strings` (`strings.dfy`): the `str` operations the exporter uses: `startswith`,
  `endswith`, `in`, `join`, `replace`, and `rstrip` with Python 3's whitespace set;
  plus one-character `split` and `count`, which the lemmas use to read the outputs back.
- `CellTags` (`tags.dfy`): `Cell.tags`, `snippet_name`, `requested_output`, the
  `table:resize` switch and `source`.
- `Outputs` (`outputs.dfy`): the four `get_*_outputs` walks as recursive filters over
  the records, then `text_output`, the selection in `png_output`, and the renderer input
  of `html_pdf_output`.
- `CharRefs` (`charrefs.dfy`): `encode('ascii', 'xmlcharrefreplace')` and a decoder
  for its output, used as its partner.
- `Tables` (`tables.dfy`): `table_output`. Column-spec inference and emission are pure
  functions. The methods `InferColSpec` and `EmitTable` build the string step by step,
  as the source does, and are proved equal to those functions.
- `Snippets` (`snippets.dfy`): the files `create_snippets` writes for a cell and for a
  notebook.
- `Examples` (`worked.dfy`): instances taken from the snippets the test suite exports.

Errors are values. Each `raise`, and each failing key lookup the walks can meet, is a
constructor of `NotebookData.Error`.

## Model

| member | source | states |
|---|---|---|
| `CellTags.Namespace` | jupro/jupro.py:73-75 | a non-empty filter gets a `:` appended exactly when it does not already end in one |
| `CellTags.Unprefixed` | jupro/jupro.py:76 | the comprehension `[t[len(prefix):] for t in tags if t.startswith(prefix)]`: no more results than tags (its partners are `UnprefixedRestores` and `UnprefixedMembership`) |
| `CellTags.UnprefixedRestores` | jupro/jupro.py:76 | putting the prefix back on the query's results gives exactly the tags that start with it, in order and with repeats |
| `CellTags.UnprefixedMembership` | jupro/jupro.py:76 | `x` is returned exactly when the tag `prefix + x` is present |
| `CellTags.Tags` | jupro/jupro.py:71-77 | `Cell.tags(filter)`: the raw tags without a filter, else the namespace's tags with the prefix removed (its partners are `TagsUnfiltered` and `TagsFiltered`) |
| `CellTags.TagsUnfiltered` | jupro/jupro.py:71-73 | with no filter or an empty one, the tags come back unchanged; a cell without a `tags` key has none |
| `CellTags.TagsFiltered` | jupro/jupro.py:71-77 | with a filter, the payload `x` is returned exactly when `namespace + x` is a tag; the results are the namespace's tags, in order |
| `CellTags.SnippetName` | jupro/jupro.py:87-93 | fails with the multiple-tags error exactly when there is more than one `snippet:` tag; gives nothing exactly when there is none; otherwise gives the payload of the only one |
| `CellTags.RequestedOutput` | jupro/jupro.py:95-97 | `requested_output`: the tags of the `output` namespace (its partner is `RequestsIff`) |
| `CellTags.RequestsIff` | jupro/jupro.py:95-97 | `kind in requested_output` holds exactly when the tag `output:kind` is present |
| `CellTags.Resize` | jupro/jupro.py:171 | `"resize" in self.tags("table:")` (its partner is `ResizeIff`) |
| `CellTags.ResizeIff` | jupro/jupro.py:171 | the resize switch is on exactly when the tag `table:resize` is present |
| `CellTags.Source` | jupro/jupro.py:83-85 | `source`: the source fragments concatenated (its partner is `SourceAppend`) |
| `CellTags.SourceAppend` | jupro/jupro.py:83-85 | the source of more fragments is the source of the first ones followed by that of the rest |
| `Strings.StartsWith` | jupro/jupro.py:76 | `s.startswith(p)` (also at line 161): `p` is a prefix of `s`; an extension of `s` keeps it (`StartsWithAppend`) |
| `Strings.EndsWith` | jupro/jupro.py:74 | `s.endswith(q)`: `q` is a suffix of `s`; any `a + q` ends in `q` (`EndsWithAppend`) |
| `Strings.Contains` | jupro/jupro.py:131 | `sub in s` as a left-to-right scan (its partner is `ContainsIffOccurs`) |
| `Strings.ContainsIffOccurs` | jupro/jupro.py:131 | the scan finds `sub` exactly when `sub` occurs in `s` at some index |
| `Strings.Join` | jupro/jupro.py:137 | `sep.join(xs)` (also at lines 85, 130, 140, 183 and 186): its partners are `JoinAppend` (one separator between two non-empty joins), `JoinAbsent` and `SplitJoin` |
| `Strings.JoinAppend` | jupro/jupro.py:137 | joining two non-empty lists puts one separator between the two joins |
| `Strings.Replace` | jupro/jupro.py:136 | `s.replace(c, t)` (also at lines 174 and 176) for one character `c`: `c` is gone when `t` lacks it; with a one-character `t` the length is kept and each position holds `t` where `s` held `c` and is unchanged elsewhere |
| `Strings.ReplaceKeeps` | jupro/jupro.py:174 | a character other than the pattern and not in the replacement is present after exactly when before |
| `Strings.ReplaceAppend` | jupro/jupro.py:174 | replacing works piecewise over concatenation |
| `Strings.RStrip` | jupro/jupro.py:136 | `rstrip` returns a prefix; everything it cuts is whitespace; what remains does not end in whitespace |
| `Outputs.RecordText` | jupro/jupro.py:101-112 | the lines one record yields to the text walk, or the missing-key error (its partners are the record-case lemmas below) |
| `Outputs.TextLines` | jupro/jupro.py:99-112 | `get_text_outputs` as a list: the records' lines in order, the first missing key failing the walk |
| `Outputs.TextLinesAppend` | jupro/jupro.py:99-112 | the text walk over two runs of records is the walk over the first, then the second, and the first failure wins |
| `Outputs.SilentRecord` | jupro/jupro.py:99-112 | a record that yields no lines can be inserted anywhere without changing the text |
| `Outputs.StderrIgnored` | jupro/jupro.py:101-105 | a stream other than stdout never changes the text |
| `Outputs.ImageSuppressesText` | jupro/jupro.py:106-110 | a display or result record with an image contributes no text, even with a `text/plain` caption |
| `Outputs.StdoutContributes` | jupro/jupro.py:104-105 | a stdout record contributes all its lines, exactly where it stands |
| `Outputs.PlainContributes` | jupro/jupro.py:106-112 | a display or result record without an image contributes its `text/plain` lines, exactly where it stands |
| `Outputs.TextLinesFails` | jupro/jupro.py:106-112 | the walk fails exactly when some display or result record has neither an image nor `text/plain`, and then with the missing-key error |
| `Outputs.Clean` | jupro/jupro.py:135-136 | a cleaned line holds no `×`, is no longer than the line, and does not end in whitespace |
| `Outputs.CleanPrintedLine` | jupro/jupro.py:135-136 | a printed line whose text has no `×` and no trailing whitespace is cleaned back to that text |
| `Outputs.CleanNoNewline` | jupro/jupro.py:135-136 | a stored line (a newline only at its end) has no newline once cleaned |
| `Outputs.TextOutput` | jupro/jupro.py:134-137 | `text_output`: the cleaned lines joined with newlines (its partner is `TextOutputShape`) |
| `Outputs.TextOutputShape` | jupro/jupro.py:134-137 | the text output has no `×`; for stored lines, splitting it at newlines gives the cleaned lines back, it has one newline fewer than lines, and no segment ends in whitespace |
| `Outputs.PngPayloads` | jupro/jupro.py:114-118 | `get_png_outputs` as a list: no more payloads than records (its partners are `PngPayloadsAppend`, `SingleImage` and `NoImage`) |
| `Outputs.PngPayloadsAppend` | jupro/jupro.py:114-118 | the image walk keeps record order: the walk over two runs is the concatenation of the walks |
| `Outputs.SingleImage` | jupro/jupro.py:114-118 | the walk yields exactly `[x]` exactly when one record carries image `x` and no other record carries an image |
| `Outputs.NoImage` | jupro/jupro.py:114-118 | the walk yields nothing exactly when no record carries an image |
| `Outputs.PngOutput` | jupro/jupro.py:144-150 | fails with no image and with more than one; otherwise gives the one payload |
| `Outputs.PngOutputIff` | jupro/jupro.py:144-150 | `png_output` gives `x` exactly when `x` is the image of the only image record |
| `Outputs.HtmlLines` | jupro/jupro.py:120-124 | `get_html_outputs` as a list: all HTML lines of the display and result records, in order |
| `Outputs.HtmlLinesAppend` | jupro/jupro.py:120-124 | the HTML walk keeps record order |
| `Outputs.HtmlPdfInput` | jupro/jupro.py:139-141 | the text handed to the renderer is pure ASCII |
| `Outputs.HtmlPdfInputDecodes` | jupro/jupro.py:139-141 | the renderer input loses nothing: decoding its character references gives back the newline-joined HTML (when the HTML has no `&`) |
| `Outputs.TableFragments` | jupro/jupro.py:126-132 | every table candidate contains `</table>`; there are no more of them than records |
| `Outputs.TableFragmentsAppend` | jupro/jupro.py:126-132 | the table walk keeps record order |
| `Outputs.TableFragmentsMembership` | jupro/jupro.py:126-132 | a string is a candidate exactly when it is some record's joined HTML and contains `</table>` |
| `CharRefs.Encode` | jupro/jupro.py:141 | `xmlcharrefreplace` output is ASCII and at least as long as the text |
| `CharRefs.EncodeAppend` | jupro/jupro.py:141 | the encoding works character by character, so it distributes over concatenation |
| `CharRefs.DecodeEncodeChar` | jupro/jupro.py:141 | one encoded character other than `&` decodes back to itself, whatever follows it |
| `CharRefs.DecodeEncode` | jupro/jupro.py:141 | for text without `&`, decoding the encoding gives the text back |
| `Tables.TibbleSpec` | jupro/jupro.py:163-164 | the tibble spec has one letter per column type |
| `Tables.ColSpec` | jupro/jupro.py:161-170 | fails exactly when the header is not a tibble header and there is no body row; the letters are `r` or `X`; the length is the second header row's width for a tibble and the first body row's width otherwise; a non-empty spec holds an `X` |
| `Tables.TibbleColumns` | jupro/jupro.py:161-166 | for a tibble with some non-numeric column, exactly the `<dbl>`/`<int>` columns are `r`; when all are numeric, the spec is all `X` |
| `Tables.PlainColumns` | jupro/jupro.py:167-168 | any other header gives `X` repeated to the first body row's width |
| `Tables.ResizeSpec` | jupro/jupro.py:175-176 | under resize, every `X` becomes `l` and nothing else changes |
| `Tables.Escape` | jupro/jupro.py:173-174 | `clean`, `x.replace("_", "\\_")` (its partners are `EscapeOnce` and `EscapeKeeps`) |
| `Tables.EscapeOnce` | jupro/jupro.py:173-174 | escaping `_` as `\_` is applied once and loses nothing: one left-to-right unescaping pass gives the cell back |
| `Tables.EscapeKeeps` | jupro/jupro.py:173-174 | escaping adds and removes no character other than `_` and `\` |
| `Tables.HeadCells` | jupro/jupro.py:181-182 | each header cell becomes `\ccstablehead{..}` in row 0 and `\ccstablesubhead{..}` later, around its escaped text |
| `Tables.HeaderBlockSnoc` | jupro/jupro.py:180-183 | each header row appends one row line to the accumulated header |
| `Tables.BodyBlockSnoc` | jupro/jupro.py:185-186 | each body row appends one row line of verbatim cells |
| `Tables.Snippet` | jupro/jupro.py:160-191 | the emitted snippet of a parsed table (its partners are `SnippetFrame`, `SnippetIsLines`, `SnippetRows` and `EmitTable`) |
| `Tables.SnippetFrame` | jupro/jupro.py:175-190 | the snippet starts with its environment opener and `\toprule`, and ends with `\bottomrule` and the matching closer; under resize the spec has no `X` left |
| `Tables.SnippetIsLines` | jupro/jupro.py:177-190 | the snippet is exactly its lines (opener, top rule, header rows, mid rule, body rows, bottom rule, closer), each followed by a line break |
| `Tables.SnippetRows` | jupro/jupro.py:177-190 | with one-line cells, splitting the snippet at line breaks finds the rules at their places and one line per header and body row, each holding that row's cells |
| `Tables.RowColumns` | jupro/jupro.py:186 | a body row of n cells without `&` has n - 1 column separators |
| `Tables.HeaderColumns` | jupro/jupro.py:182-183 | the same for header rows: escaping adds no separator |
| `Tables.TableOutputOf` | jupro/jupro.py:152-191 | `table_output` as a function of the cell and the parser (its partner is the method `TableOutput`) |
| `Tables.TableOutput` | jupro/jupro.py:152-191 | fails with no table candidate and with more than one, and otherwise emits the parsed table |
| `Tables.InferColSpec` | jupro/jupro.py:161-170 | the branch-by-branch spec inference computes `ColSpec` |
| `Tables.EmitTable` | jupro/jupro.py:160-191 | building the string with the two loops gives exactly `Snippet`; an empty header fails |
| `Snippets.Plan` | jupro/jupro.py:31-41 | the planned writes of a cell: a cell of any type with more than one snippet tag fails; a cell is exported exactly when it is a code cell with one snippet tag naming a non-empty snippet |
| `Snippets.PlanShape` | jupro/jupro.py:33-41 | an exported cell writes its source, then its text, then the requested files in a fixed order; each file is named snippet + extension + suffix |
| `Snippets.PlanRequests` | jupro/jupro.py:36-41 | the `.png`, `.html.pdf` and `.table.tex` files are written exactly when `output:png`, `output:html` and `output:table` are present |
| `Snippets.PayloadError` | jupro/jupro.py:35-41 | an exported cell's payloads raise nothing exactly when its text output succeeds, its image selection succeeds if `png` is requested, and its table succeeds if `table` is requested; a failing text output is the error reported |
| `Snippets.ExportCell` | jupro/jupro.py:30-41 | one pass of the loop: it fails exactly when `snippet_name` raises (any cell type) or the cell is exported and a payload raises, with that payload's error; otherwise it gives the planned writes |
| `Snippets.NotebookPlan` | jupro/jupro.py:30-41 | the files the cells write one after the other, and the error of the first failing cell, which stops the run (its partners are the lemmas below) |
| `Snippets.CreateSnippets` | jupro/jupro.py:22-41 | `create_snippets` on a loaded notebook with its file extension (its partners are the lemmas below) |
| `Snippets.NotebookPlanFails` | jupro/jupro.py:30-41 | the notebook export stops with an error exactly when some cell's pass fails |
| `Snippets.NotebookPlanStops` | jupro/jupro.py:30-41 | the export stops with the error of the first failing cell, having written exactly the files of the cells before it; the cells after it play no part |
| `Snippets.MissingImageStops` | jupro/jupro.py:36-37 | an exported code cell that asks for an image it lacks stops the export with the no-image error |
| `Snippets.NotebookPlanAppend` | jupro/jupro.py:30-41 | when a first run of cells completes, exporting it and then a second run writes the first run's files, then the second's, and stops as the second does |
| `Snippets.OnlyCodeCells` | jupro/jupro.py:30-32 | cells that are not code cells add no file and do not stop the export |
| `Examples.TwoPrints` | jupro/jupro.py:134-137 | two printed lines become the two texts joined by one newline |
| `Examples.PrintsExample` | tests/test_jupro.py:26-29 | `first print` and `second print` give `first print\nsecond print` |
| `Examples.TibbleExample` | jupro/jupro.py:161-166 | a `<dbl>` and a `<chr>` column give the spec `rX` |

## Left out

- `run_notebook` (jupro/jupro.py:12-19) starts `jupyter nbconvert` and parses its JSON. The model takes the loaded notebook as its input.
- The file and process I/O of `create_snippets`, `write`, `write_bytes`, `write_cropped_pdf` and `pipe` (jupro/jupro.py:22-63) is left out. The model gives the list of files written, with their names relative to the output folder. It does not model directory creation, logging, or the choice of the default folder.
- `Snippets.ExportCell`: when a payload raises part-way, the real loop has already written the cell's earlier files (the source, perhaps the text). The model reports the error for the cell; it does not say how far the failing cell's own writes got. The files of the cells before it are kept in `NotebookPlan`'s result.
- `Snippets.Plan`: the planned writes do not depend on whether the payloads raise; that is `ExportCell`'s part.
- `parse_table` (jupro/jupro.py:193-198) uses lxml and CSS selectors. `TableOutput` takes the parser as a function parameter, and `None` stands for a fragment the parser refuses.
- `Outputs.PngOutput`: `b64decode` (jupro/jupro.py:150) is a library call, so the result is the selected base64 payload, not the decoded bytes.
- `Outputs.HtmlPdfInput`: the `wkhtmltopdf` and `pdfcrop` calls are external processes. The model ends at the bytes handed to the renderer.
- `CharRefs.DecodeEncode` and `Outputs.HtmlPdfInputDecodes` require text without `&`, because a literal `&#N;` in the HTML would read back as a reference. The encoding itself is total.
- Text and HTML payloads are modelled as lists of lines, which is how notebooks store them. A payload stored as a single string, which `yield from` would walk character by character, is not modelled.
- MIME keys other than `text/plain`, `image/png` and `text/html` are irrelevant to the code and are not modelled. Output kinds other than stream, display data and execute result are one `OtherOutput` case, which yields nothing.
- The exception message texts are not modelled. Each exception is an `Error` constructor; "Silly!" at jupro/jupro.py:170 is `NoBodyRows`.
- The unused `ncol` (jupro/jupro.py:160) matters only for what it checks: an empty header fails with `EmptyHeader`.
- `jupro/__main__.py` and `setup.py` (command line and packaging) are not part of this model.
- Only `_` is escaped, and only in header cells (jupro/jupro.py:173-174, 182). Body cells are emitted verbatim (jupro/jupro.py:186).
- No ANSI escape sequence or ellipsis is touched in the text output; the only replacement is `×` to `x` (jupro/jupro.py:136).
- The fallback spec takes the width of `body[0]` (jupro/jupro.py:168).
