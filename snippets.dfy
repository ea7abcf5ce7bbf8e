/** The per-cell decision of `create_snippets`: which files the exporter writes for a cell,
    under which names and in which order. The writing itself is not modelled. */
module Snippets {
  import opened NotebookData
  import opened Strings
  import opened CellTags
  import opened Outputs
  import opened Tables

  /** The files a snippet can produce, in the order the exporter writes them. */
  datatype Artifact = SourceFile | TextFile | PngFile | PdfFile | TableFile {
    /** What follows `{name}{ext}` in the file name. */
    function Suffix(): string {
      match this
      case SourceFile => ""
      case TextFile => ".out"
      case PngFile => ".png"
      case PdfFile => ".html.pdf"
      case TableFile => ".table.tex"
    }

    /** Position in the writing order. */
    function Rank(): nat {
      match this
      case SourceFile => 0
      case TextFile => 1
      case PngFile => 2
      case PdfFile => 3
      case TableFile => 4
    }
  }

  /** One planned write: the file name (relative to the output folder) and what goes in it. */
  datatype Export = Export(file: string, kind: Artifact)

  /** `[a]` when `wanted`, else nothing. */
  function If(wanted: bool, a: Artifact): (r: seq<Artifact>)
    ensures |r| <= 1 && (a in r <==> wanted) && forall k :: 0 <= k < |r| ==> r[k] == a
  {
    if wanted then [a] else []
  }

  /** The artifacts a cell asks for with `output:` tags, beyond its source and text. */
  function Requested(c: Cell): seq<Artifact> {
    If(Requests(c, "png"), PngFile) + If(Requests(c, "html"), PdfFile) + If(Requests(c, "table"), TableFile)
  }

  /** The writes, in order, for an exported cell. */
  function Layout(c: Cell): seq<Artifact> {
    [SourceFile, TextFile] + Requested(c)
  }

  /** Every artifact gets the file name `stem` followed by its suffix. */
  function Named(stem: string, kinds: seq<Artifact>): (r: seq<Export>)
    ensures |r| == |kinds|
    ensures forall i :: 0 <= i < |kinds| ==> r[i] == Export(stem + kinds[i].Suffix(), kinds[i])
  {
    seq(|kinds|, i requires 0 <= i < |kinds| => Export(stem + kinds[i].Suffix(), kinds[i]))
  }

  /** The `snippet:` tags of a cell, with their prefix. */
  function SnippetTags(c: Cell): seq<string> {
    WithPrefix(RawTags(c), "snippet:")
  }

  /** The writes `create_snippets` plans for one cell, `ext` being the notebook's file
      extension (whether the payloads then raise is `ExportCell`'s concern). `snippet_name` is evaluated before the cell type is looked at, so a cell
      of any type with two snippet tags stops the export. A code cell whose one snippet tag
      names a non-empty snippet is exported; every other cell writes nothing. */
  function Plan(c: Cell, ext: string): (r: Result<seq<Export>>)
    ensures r.Failure? <==> |SnippetTags(c)| > 1
    ensures r.Failure? ==> r.error.MultipleSnippetTags?
    ensures r.Success? && |r.value| > 0 <==>
              c.cellType == "code" && |SnippetTags(c)| == 1 && SnippetTags(c)[0] != "snippet:"
  {
    var name :- SnippetName(c);
    if c.cellType == "code" && name.Some? && name.value != "" then
      Success(Named(name.value + ext, Layout(c)))
    else
      assert c.cellType == "code" && name.Some? ==> SnippetTags(c)[0] == "snippet:";
      Success([])
  }

  /** The kinds of a list of planned writes. */
  function Kinds(plan: seq<Export>): (r: seq<Artifact>)
    ensures |r| == |plan| && forall i :: 0 <= i < |plan| ==> r[i] == plan[i].kind
  {
    seq(|plan|, i requires 0 <= i < |plan| => plan[i].kind)
  }

  /** The optional artifacts come in writing order, after the text file. */
  lemma RequestedOrder(c: Cell)
    ensures |Requested(c)| <= 3
    ensures forall k :: 0 <= k < |Requested(c)| ==> Requested(c)[k].Rank() >= 2
    ensures forall i, j :: 0 <= i < j < |Requested(c)| ==> Requested(c)[i].Rank() < Requested(c)[j].Rank()
  {
    var x, y, z := If(Requests(c, "png"), PngFile), If(Requests(c, "html"), PdfFile),
                   If(Requests(c, "table"), TableFile);
    assert Requested(c) == x + y + z;
    assert forall k :: 0 <= k < |x + y + z| ==>
      (x + y + z)[k].Rank() == if k < |x| then 2 else if k < |x| + |y| then 3 else 4;
  }

  /** A layout starts with the source and the text file and keeps the writing order. */
  lemma LayoutOrder(c: Cell)
    ensures var ks := Layout(c);
            && 2 <= |ks| <= 5 && ks[0] == SourceFile && ks[1] == TextFile
            && forall i, j :: 0 <= i < j < |ks| ==> ks[i].Rank() < ks[j].Rank()
  {
    var ks := Layout(c);
    RequestedOrder(c);
    assert forall k :: 2 <= k < |ks| ==> ks[k] == Requested(c)[k - 2];
  }

  /** An exported cell writes its source, then its text output, then the requested
      artifacts in a fixed order, every file named after the snippet and the extension. */
  lemma PlanShape(c: Cell, ext: string)
    requires Plan(c, ext).Success? && |Plan(c, ext).value| > 0
    ensures var p := Plan(c, ext).value;
            && 2 <= |p| <= 5
            && p[0].kind == SourceFile && p[1].kind == TextFile
            && (forall i :: 0 <= i < |p| ==>
                  p[i].file == SnippetTags(c)[0][|"snippet:"|..] + ext + p[i].kind.Suffix())
            && (forall i, j :: 0 <= i < j < |p| ==> p[i].kind.Rank() < p[j].kind.Rank())
  {
    var name := SnippetName(c).value.value;
    assert SnippetTags(c)[0][|"snippet:"|..] == name by {
      assert SnippetTags(c)[0] == "snippet:" + name;
    }
    var p := Plan(c, ext).value;
    assert p == Named(name + ext, Layout(c));
    LayoutOrder(c);
  }

  /** Which optional artifacts a layout holds. */
  lemma LayoutHas(c: Cell)
    ensures PngFile in Layout(c) <==> Requests(c, "png")
    ensures PdfFile in Layout(c) <==> Requests(c, "html")
    ensures TableFile in Layout(c) <==> Requests(c, "table")
  {
    var x, y, z := If(Requests(c, "png"), PngFile), If(Requests(c, "html"), PdfFile),
                   If(Requests(c, "table"), TableFile);
    assert Layout(c) == [SourceFile, TextFile] + x + y + z;
  }

  /** The planned writes of an exported cell are its layout, in order. */
  lemma PlanKinds(c: Cell, ext: string)
    requires Plan(c, ext).Success? && |Plan(c, ext).value| > 0
    ensures Kinds(Plan(c, ext).value) == Layout(c)
  {
    var name := SnippetName(c).value.value;
    var p := Plan(c, ext).value;
    var ks := Layout(c);
    assert p == Named(name + ext, ks);
    assert forall k :: 0 <= k < |ks| ==> Kinds(p)[k] == ks[k];
  }

  /** An exported cell writes its image, its rendered HTML and its table exactly when it
      carries the tags `output:png`, `output:html` and `output:table`. */
  lemma PlanRequests(c: Cell, ext: string)
    requires Plan(c, ext).Success? && |Plan(c, ext).value| > 0
    ensures PngFile in Kinds(Plan(c, ext).value) <==> "output:png" in RawTags(c)
    ensures PdfFile in Kinds(Plan(c, ext).value) <==> "output:html" in RawTags(c)
    ensures TableFile in Kinds(Plan(c, ext).value) <==> "output:table" in RawTags(c)
  {
    PlanKinds(c, ext);
    LayoutHas(c);
    RequestTags(c);
  }

  /** The three output kinds the exporter knows, as tags. */
  lemma RequestTags(c: Cell)
    ensures Requests(c, "png") <==> "output:png" in RawTags(c)
    ensures Requests(c, "html") <==> "output:html" in RawTags(c)
    ensures Requests(c, "table") <==> "output:table" in RawTags(c)
  {
    RequestsIff(c, "png");
    assert "output:" + "png" == "output:png";
    RequestsIff(c, "html");
    assert "output:" + "html" == "output:html";
    RequestsIff(c, "table");
    assert "output:" + "table" == "output:table";
  }

  /** The first error the payloads of an exported cell raise, in the order the exporter
      computes them: the text output, then the image if `png` is requested, then the table
      if `table` is requested. The HTML hand-off raises nothing in this model. */
  function PayloadError(c: Cell, parse: string -> Option<ParsedTable>): (r: Option<Error>)
    ensures r.None? <==>
              && TextOutput(c).Success?
              && (Requests(c, "png") ==> PngOutput(c).Success?)
              && (Requests(c, "table") ==> TableOutputOf(c, parse).Success?)
    ensures TextOutput(c).Failure? ==> r == Some(TextOutput(c).error)
    ensures TextOutput(c).Success? && Requests(c, "png") && PngOutput(c).Failure? ==>
              r == Some(PngOutput(c).error)
  {
    if TextOutput(c).Failure? then Some(TextOutput(c).error)
    else if Requests(c, "png") && PngOutput(c).Failure? then Some(PngOutput(c).error)
    else if Requests(c, "table") && TableOutputOf(c, parse).Failure? then
      Some(TableOutputOf(c, parse).error)
    else None
  }

  /** The loop body of `create_snippets` for one cell: the planned writes, or the error
      that stops the export. A cell stops it when `snippet_name` raises (for any cell
      type), or when it is exported and one of its payloads raises. */
  function ExportCell(c: Cell, ext: string, parse: string -> Option<ParsedTable>): (r: Result<seq<Export>>)
    ensures r.Failure? <==>
              |SnippetTags(c)| > 1 || (|Plan(c, ext).value| > 0 && PayloadError(c, parse).Some?)
    ensures r.Failure? && |SnippetTags(c)| <= 1 ==> r.error == PayloadError(c, parse).value
    ensures r.Success? ==> r == Plan(c, ext)
  {
    var planned :- Plan(c, ext);
    if |planned| > 0 && PayloadError(c, parse).Some? then Failure(PayloadError(c, parse).value)
    else Success(planned)
  }

  /** What an export run leaves behind: the files written by the cells that completed,
      and the error that stopped the run, if any. */
  datatype Run = Run(written: seq<Export>, stopped: Option<Error>)

  /** The writes of a whole notebook: the cells' writes one after the other. The first
      cell that fails stops the run; the files of the cells before it stay written. */
  function NotebookPlan(cells: seq<Cell>, ext: string, parse: string -> Option<ParsedTable>): Run
    decreases |cells|
  {
    if |cells| == 0 then Run([], None)
    else
      match ExportCell(cells[0], ext, parse)
      case Failure(e) => Run([], Some(e))
      case Success(first) =>
        var rest := NotebookPlan(cells[1..], ext, parse);
        Run(first + rest.written, rest.stopped)
  }

  /** `create_snippets` on a loaded notebook. */
  function CreateSnippets(nb: Notebook, parse: string -> Option<ParsedTable>): Run {
    NotebookPlan(nb.cells, nb.fileExtension, parse)
  }

  /** The notebook export stops exactly when some cell fails: one of any type with more
      than one snippet tag, or an exported one whose payload raises. */
  lemma {:induction false} NotebookPlanFails(cells: seq<Cell>, ext: string, parse: string -> Option<ParsedTable>)
    ensures NotebookPlan(cells, ext, parse).stopped.Some? <==>
              exists i :: 0 <= i < |cells| && ExportCell(cells[i], ext, parse).Failure?
    decreases |cells|
  {
    if |cells| > 0 {
      NotebookPlanFails(cells[1..], ext, parse);
      if exists i :: 0 <= i < |cells[1..]| && ExportCell(cells[1..][i], ext, parse).Failure? {
        var i :| 0 <= i < |cells[1..]| && ExportCell(cells[1..][i], ext, parse).Failure?;
        assert cells[1..][i] == cells[i + 1];
      }
      if exists i :: 0 <= i < |cells| && ExportCell(cells[i], ext, parse).Failure? {
        var i :| 0 <= i < |cells| && ExportCell(cells[i], ext, parse).Failure?;
        if i > 0 {
          assert cells[1..][i - 1] == cells[i];
        }
      }
    }
  }

  /** The export stops at the first failing cell and reports that cell's error. The files
      written are exactly those of the cells before it; the cells after it are not looked
      at. */
  lemma {:induction false} NotebookPlanStops(cells: seq<Cell>, ext: string, parse: string -> Option<ParsedTable>, i: nat)
    requires i < |cells| && ExportCell(cells[i], ext, parse).Failure?
    requires forall j :: 0 <= j < i ==> ExportCell(cells[j], ext, parse).Success?
    ensures NotebookPlan(cells[..i], ext, parse).stopped.None?
    ensures NotebookPlan(cells, ext, parse)
         == Run(NotebookPlan(cells[..i], ext, parse).written, Some(ExportCell(cells[i], ext, parse).error))
    decreases i
  {
    if i == 0 {
      assert cells[..0] == [];
    } else {
      forall j | 0 <= j < i - 1 ensures ExportCell(cells[1..][j], ext, parse).Success? {
        assert cells[1..][j] == cells[j + 1];
      }
      assert cells[1..][i - 1] == cells[i];
      NotebookPlanStops(cells[1..], ext, parse, i - 1);
      assert cells[..i][0] == cells[0] && cells[..i][1..] == cells[1..][..i - 1];
    }
  }

  /** The first cell of two runs of cells is that of the first run, and the rest is the rest
      of the first run followed by the second. */
  lemma CellsAppend(a: seq<Cell>, b: seq<Cell>)
    requires |a| > 0
    ensures (a + b)[0] == a[0] && (a + b)[1..] == a[1..] + b
  {
  }

  /** Lists of writes regroup freely. */
  lemma ExportsAssoc(x: seq<Export>, y: seq<Export>, z: seq<Export>)
    ensures x + (y + z) == (x + y) + z
  {
  }

  /** A run that does not stop has a first cell that completes. */
  lemma NotebookPlanHead(cells: seq<Cell>, ext: string, parse: string -> Option<ParsedTable>)
    requires |cells| > 0 && NotebookPlan(cells, ext, parse).stopped.None?
    ensures ExportCell(cells[0], ext, parse).Success?
    ensures NotebookPlan(cells[1..], ext, parse).stopped.None?
  {
  }

  /** A cell that completes writes its files ahead of those of the cells after it. */
  lemma NotebookPlanCons(cells: seq<Cell>, ext: string, parse: string -> Option<ParsedTable>)
    requires |cells| > 0 && ExportCell(cells[0], ext, parse).Success?
    ensures NotebookPlan(cells, ext, parse)
         == Run(ExportCell(cells[0], ext, parse).value + NotebookPlan(cells[1..], ext, parse).written,
                NotebookPlan(cells[1..], ext, parse).stopped)
  {
  }

  /** Exporting two runs of cells one after the other writes the files of the first run,
      then those of the second, and stops as the second does, provided the first does not
      stop. */
  lemma {:induction false} NotebookPlanAppend(a: seq<Cell>, b: seq<Cell>, ext: string, parse: string -> Option<ParsedTable>)
    requires NotebookPlan(a, ext, parse).stopped.None?
    ensures NotebookPlan(a + b, ext, parse)
         == Run(NotebookPlan(a, ext, parse).written + NotebookPlan(b, ext, parse).written,
                NotebookPlan(b, ext, parse).stopped)
    decreases |a|
  {
    if |a| == 0 {
      assert a + b == b;
      var y := NotebookPlan(b, ext, parse).written;
      assert [] + y == y;
    } else {
      NotebookPlanHead(a, ext, parse);
      NotebookPlanAppend(a[1..], b, ext, parse);
      NotebookPlanCons(a, ext, parse);
      CellsAppend(a, b);
      NotebookPlanCons(a + b, ext, parse);
      ExportsAssoc(ExportCell(a[0], ext, parse).value, NotebookPlan(a[1..], ext, parse).written,
                   NotebookPlan(b, ext, parse).written);
    }
  }

  /** Cells that are not code cells add no file and do not stop the export. */
  lemma {:induction false} OnlyCodeCells(cells: seq<Cell>, ext: string, parse: string -> Option<ParsedTable>)
    requires forall i :: 0 <= i < |cells| ==> cells[i].cellType != "code"
    requires forall i :: 0 <= i < |cells| ==> |SnippetTags(cells[i])| <= 1
    ensures NotebookPlan(cells, ext, parse) == Run([], None)
    decreases |cells|
  {
    if |cells| > 0 {
      assert cells[0].cellType != "code" && |SnippetTags(cells[0])| <= 1;
      assert ExportCell(cells[0], ext, parse) == Success([]);
      OnlyCodeCells(cells[1..], ext, parse);
      var none: seq<Export> := [];
      assert none + none == none;
    }
  }

  /** A code cell that is exported and asks for an image it does not have stops the export
      with the no-image error, once its text output succeeds. */
  lemma MissingImageStops(c: Cell, ext: string, parse: string -> Option<ParsedTable>)
    requires c.cellType == "code" && |SnippetTags(c)| == 1 && SnippetTags(c)[0] != "snippet:"
    requires "output:png" in RawTags(c)
    requires TextOutput(c).Success?
    requires forall j :: 0 <= j < |c.outputs| ==> ImageOf(c.outputs[j]).None?
    ensures ExportCell(c, ext, parse) == Failure(NoPng)
    ensures NotebookPlan([c], ext, parse) == Run([], Some(NoPng))
  {
    RequestTags(c);
    NoImage(c.outputs);
    assert PngOutput(c) == Failure(NoPng);
    assert PayloadError(c, parse) == Some(NoPng);
    assert |Plan(c, ext).value| > 0;
    NotebookPlanStops([c], ext, parse, 0);
    assert [c][..0] == [];
  }
}
