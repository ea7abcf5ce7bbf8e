/** `Cell.table_output`: pick the one HTML table of a cell, infer its column spec and
    emit it as a LaTeX `tabularx` (or, with `table:resize`, a scaled `tabular`). The HTML
    parser is a parameter: `parse_table` is not part of this model. */
module Tables {
  import opened NotebookData
  import opened Strings
  import opened CellTags
  import opened Outputs

  /** The result of `parse_table`: header rows and body rows of cell texts. */
  datatype ParsedTable = ParsedTable(header: seq<seq<string>>, body: seq<seq<string>>)

  /** The "tibble" shape: two header rows, every cell of the second one starting with `<`. */
  predicate IsTibbleHeader(header: seq<seq<string>>) {
    |header| == 2 && forall i :: 0 <= i < |header[1]| ==> StartsWith(header[1][i], "<")
  }

  /** Numeric tibble column types. */
  predicate IsNumericType(x: string) {
    x == "<dbl>" || x == "<int>"
  }

  /** `TIBBLE_TYPES.get(x, "X")`. */
  function TibbleType(x: string): char {
    if IsNumericType(x) then 'r' else 'X'
  }

  /** `"".join([TIBBLE_TYPES.get(x, "X") for x in types])`. */
  function TibbleSpec(types: seq<string>): (r: string)
    ensures |r| == |types|
  {
    seq(|types|, i requires 0 <= i < |types| => TibbleType(types[i]))
  }

  /** The column spec of `table_output` (source lines 161-170). */
  function ColSpec(t: ParsedTable): (r: Result<string>)
    ensures r.Failure? <==> !IsTibbleHeader(t.header) && |t.body| == 0
    ensures r.Failure? ==> r.error == NoBodyRows
    ensures r.Success? ==> forall i :: 0 <= i < |r.value| ==> r.value[i] == 'r' || r.value[i] == 'X'
    ensures r.Success? && IsTibbleHeader(t.header) ==> |r.value| == |t.header[1]|
    ensures r.Success? && !IsTibbleHeader(t.header) ==> |r.value| == |t.body[0]|
    ensures r.Success? && |r.value| > 0 ==> 'X' in r.value
  {
    if IsTibbleHeader(t.header) then
      var spec := TibbleSpec(t.header[1]);
      if 'X' !in spec then
        Success(Repeat('X', |spec|))
      else Success(spec)
    else if |t.body| > 0 then Success(Repeat('X', |t.body[0]|))
    else Failure(NoBodyRows)
  }

  /** Tibble headers: when some column is not numeric, exactly the `<dbl>` and `<int>`
      columns are right-aligned and the rest are `X`; when all are numeric, all are `X`. */
  lemma TibbleColumns(t: ParsedTable)
    requires IsTibbleHeader(t.header)
    ensures var spec := ColSpec(t).value; var types := t.header[1];
            && ((exists j :: 0 <= j < |types| && !IsNumericType(types[j])) ==>
                  forall i :: 0 <= i < |types| ==> (spec[i] == 'r' <==> IsNumericType(types[i])))
            && ((forall j :: 0 <= j < |types| ==> IsNumericType(types[j])) ==>
                  spec == Repeat('X', |types|))
  {
    var types := t.header[1];
    var spec := TibbleSpec(types);
    if exists j :: 0 <= j < |types| && !IsNumericType(types[j]) {
      var j :| 0 <= j < |types| && !IsNumericType(types[j]);
      assert spec[j] == 'X';
    } else {
      assert 'X' !in spec by {
        forall i | 0 <= i < |spec| ensures spec[i] != 'X' { assert IsNumericType(types[i]); }
      }
    }
  }

  /** Any header other than a tibble header: the width of the first body row, all `X`. */
  lemma PlainColumns(t: ParsedTable)
    requires !IsTibbleHeader(t.header) && |t.body| > 0
    ensures ColSpec(t) == Success(Repeat('X', |t.body[0]|))
  {
  }

  /** `colspec.replace('X', 'l')` under `table:resize`. */
  function ResizeSpec(spec: string): (r: string)
    ensures |r| == |spec| && 'X' !in r
    ensures forall i :: 0 <= i < |spec| ==> r[i] == (if spec[i] == 'X' then 'l' else spec[i])
  {
    Replace(spec, 'X', "l")
  }

  /** `clean` of `table_output`: `_` becomes `\_`; nothing else is escaped. */
  function Escape(x: string): string {
    Replace(x, '_', @"\_")
  }

  /** Reads `\_` as `_`, scanning from the left. */
  function Unescape(s: string): string
    decreases |s|
  {
    if |s| >= 2 && s[0] == '\\' && s[1] == '_' then "_" + Unescape(s[2..])
    else if |s| == 0 then ""
    else [s[0]] + Unescape(s[1..])
  }

  /** An escaped text never starts with a bare `_`. */
  lemma EscapeHead(x: string)
    requires |Escape(x)| > 0
    ensures Escape(x)[0] != '_'
  {
    assert |x| > 0;
    assert Escape(x) == (if x[0] == '_' then @"\_" else [x[0]]) + Escape(x[1..]);
  }

  /** Escaping happens exactly once and loses nothing: one left-to-right pass that reads
      `\_` as `_` recovers the text, whatever backslashes it held. */
  lemma {:induction false} EscapeOnce(x: string)
    ensures Unescape(Escape(x)) == x
    decreases |x|
  {
    if |x| > 0 {
      var rest := Escape(x[1..]);
      EscapeOnce(x[1..]);
      if x[0] == '_' {
        assert Escape(x) == @"\_" + rest;
        assert (@"\_" + rest)[2..] == rest;
      } else {
        assert Escape(x) == [x[0]] + rest;
        if |rest| > 0 {
          EscapeHead(x[1..]);
        }
        assert ([x[0]] + rest)[1..] == rest;
      }
      assert [x[0]] + x[1..] == x;
    }
  }

  /** Escaping neither adds nor removes any character other than `_` and `\`. */
  lemma EscapeKeeps(x: string, ch: char)
    requires ch != '_' && ch != '\\'
    ensures ch in Escape(x) <==> ch in x
  {
    ReplaceKeeps(x, '_', @"\_", ch);
  }

  /** One header cell: `\ccstablehead{..}` in the first header row, `\ccstablesubhead{..}`
      in later ones. */
  function HeadCell(row: nat, x: string): string {
    @"\" + (if row == 0 then "ccstablehead" else "ccstablesubhead") + "{" + Escape(x) + "}"
  }

  function HeadCells(row: nat, cells: seq<string>): (r: seq<string>)
    ensures |r| == |cells| && forall k :: 0 <= k < |cells| ==> r[k] == HeadCell(row, cells[k])
  {
    seq(|cells|, k requires 0 <= k < |cells| => HeadCell(row, cells[k]))
  }

  /** A table row without its line break: two spaces, the cells joined by ` & `, `\\`. */
  function RowText(cells: seq<string>): string {
    "  " + Join(" & ", cells) + @"\\"
  }

  function Row(cells: seq<string>): string {
    RowText(cells) + "\n"
  }

  /** The header lines accumulated by the first loop of `table_output`. */
  function HeaderBlock(rows: seq<seq<string>>): string
    decreases |rows|
  {
    if |rows| == 0 then ""
    else HeaderBlock(rows[..|rows| - 1]) + Row(HeadCells(|rows| - 1, rows[|rows| - 1]))
  }

  /** One more header row appends one more line. */
  lemma HeaderBlockSnoc(rows: seq<seq<string>>, i: nat)
    requires i < |rows|
    ensures HeaderBlock(rows[..i + 1]) == HeaderBlock(rows[..i]) + Row(HeadCells(i, rows[i]))
  {
    assert rows[..i + 1][..i] == rows[..i];
  }

  /** One more body row appends one more line. */
  lemma BodyBlockSnoc(rows: seq<seq<string>>, k: nat)
    requires k < |rows|
    ensures BodyBlock(rows[..k + 1]) == BodyBlock(rows[..k]) + Row(rows[k])
  {
    assert rows[..k + 1][..k] == rows[..k];
  }

  /** The body lines accumulated by the second loop: cells verbatim. */
  function BodyBlock(rows: seq<seq<string>>): string
    decreases |rows|
  {
    if |rows| == 0 then ""
    else BodyBlock(rows[..|rows| - 1]) + Row(rows[|rows| - 1])
  }

  const ScaledOpen := @"\resizebox{\linewidth}{!}{\begin{tabular}{"
  const ScaledClose := @"\end{tabular}}"
  const FullWidthOpen := @"\begin{tabularx}{\linewidth}{"
  const FullWidthClose := @"\end{tabularx}"

  function OpenLine(spec: string, resize: bool): string {
    (if resize then ScaledOpen else FullWidthOpen) + spec + "}"
  }

  function CloseLine(resize: bool): string {
    if resize then ScaledClose else FullWidthClose
  }

  const TopRule := @"  \toprule"
  const MidRule := @"  \midrule"
  const BottomRule := @"  \bottomrule"
  const MidLine := MidRule + "\n"

  /** Everything before the header rows. */
  function Opening(spec: string, resize: bool): string {
    OpenLine(spec, resize) + "\n" + TopRule + "\n"
  }

  /** Everything after the body rows. */
  function Closing(resize: bool): string {
    BottomRule + "\n" + CloseLine(resize) + "\n"
  }

  /** The snippet `table_output` builds from a parsed table (source lines 160-191). */
  function Snippet(t: ParsedTable, resize: bool): Result<string> {
    if |t.header| == 0 then Failure(EmptyHeader)
    else
      var spec :- ColSpec(t);
      var spec' := if resize then ResizeSpec(spec) else spec;
      Success(Opening(spec', resize) + HeaderBlock(t.header) + MidLine + BodyBlock(t.body)
              + Closing(resize))
  }

  /** A snippet starts with its environment opener (whose spec, under `table:resize`, has no
      `X` left) and ends with the matching closer and a line break. */
  lemma SnippetFrame(t: ParsedTable, resize: bool)
    requires Snippet(t, resize).Success?
    ensures var spec := ColSpec(t).value;
            var spec' := if resize then ResizeSpec(spec) else spec;
            && StartsWith(Snippet(t, resize).value, OpenLine(spec', resize) + "\n" + TopRule + "\n")
            && EndsWith(Snippet(t, resize).value, BottomRule + "\n" + CloseLine(resize) + "\n")
            && (resize ==> 'X' !in spec' && |spec'| == |spec|)
  {
    var spec := ColSpec(t).value;
    var spec' := if resize then ResizeSpec(spec) else spec;
    var s := Snippet(t, resize).value;
    var head := Opening(spec', resize);
    var x1 := head + HeaderBlock(t.header);
    var x2 := x1 + MidLine;
    var x3 := x2 + BodyBlock(t.body);
    assert s == x3 + Closing(resize);
    StartsWithAppend(head, HeaderBlock(t.header), head);
    StartsWithAppend(x1, MidLine, head);
    StartsWithAppend(x2, BodyBlock(t.body), head);
    StartsWithAppend(x3, Closing(resize), head);
    EndsWithAppend(x3, Closing(resize));
  }

  /** A sequence of lines, each followed by a line break. */
  function Terminated(lines: seq<string>): string
    decreases |lines|
  {
    if |lines| == 0 then "" else lines[0] + "\n" + Terminated(lines[1..])
  }

  lemma {:induction false} TerminatedAppend(a: seq<string>, b: seq<string>)
    ensures Terminated(a + b) == Terminated(a) + Terminated(b)
    decreases |a|
  {
    if |a| == 0 {
      assert a + b == b;
    } else {
      assert (a + b)[0] == a[0] && (a + b)[1..] == a[1..] + b;
      TerminatedAppend(a[1..], b);
    }
  }

  /** Splitting terminated lines at line breaks gives the lines back, and an empty last
      piece. */
  lemma {:induction false} SplitTerminated(lines: seq<string>)
    requires forall i :: 0 <= i < |lines| ==> '\n' !in lines[i]
    ensures Split(Terminated(lines), '\n') == lines + [""]
    decreases |lines|
  {
    if |lines| > 0 {
      SplitTerminated(lines[1..]);
      SplitFirst(lines[0], '\n', Terminated(lines[1..]));
      assert lines[0] + "\n" + Terminated(lines[1..]) == lines[0] + ['\n'] + Terminated(lines[1..]);
      assert [lines[0]] + (lines[1..] + [""]) == lines + [""];
    }
  }

  /** The header row lines, without line breaks. */
  function HeaderTexts(rows: seq<seq<string>>): (r: seq<string>)
    ensures |r| == |rows| && forall i :: 0 <= i < |rows| ==> r[i] == RowText(HeadCells(i, rows[i]))
  {
    seq(|rows|, i requires 0 <= i < |rows| => RowText(HeadCells(i, rows[i])))
  }

  /** The body row lines, without line breaks. */
  function BodyTexts(rows: seq<seq<string>>): (r: seq<string>)
    ensures |r| == |rows| && forall i :: 0 <= i < |rows| ==> r[i] == RowText(rows[i])
  {
    seq(|rows|, i requires 0 <= i < |rows| => RowText(rows[i]))
  }

  lemma {:induction false} HeaderBlockLines(rows: seq<seq<string>>)
    ensures HeaderBlock(rows) == Terminated(HeaderTexts(rows))
    decreases |rows|
  {
    if |rows| > 0 {
      var n := |rows| - 1;
      HeaderBlockLines(rows[..n]);
      assert HeaderTexts(rows) == HeaderTexts(rows[..n]) + [RowText(HeadCells(n, rows[n]))];
      TerminatedAppend(HeaderTexts(rows[..n]), [RowText(HeadCells(n, rows[n]))]);
      assert Terminated([RowText(HeadCells(n, rows[n]))]) == Row(HeadCells(n, rows[n]));
    }
  }

  lemma {:induction false} BodyBlockLines(rows: seq<seq<string>>)
    ensures BodyBlock(rows) == Terminated(BodyTexts(rows))
    decreases |rows|
  {
    if |rows| > 0 {
      var n := |rows| - 1;
      BodyBlockLines(rows[..n]);
      assert BodyTexts(rows) == BodyTexts(rows[..n]) + [RowText(rows[n])];
      TerminatedAppend(BodyTexts(rows[..n]), [RowText(rows[n])]);
      assert Terminated([RowText(rows[n])]) == Row(rows[n]);
    }
  }

  /** The lines of a snippet: opener, top rule, one line per header row, mid rule, one line
      per body row, bottom rule, closer. */
  function SnippetLines(t: ParsedTable, spec: string, resize: bool): seq<string> {
    [OpenLine(spec, resize), TopRule] + HeaderTexts(t.header) + [MidRule]
    + BodyTexts(t.body) + [BottomRule, CloseLine(resize)]
  }

  lemma TerminatedFive(a: seq<string>, b: seq<string>, c: seq<string>, d: seq<string>, e: seq<string>)
    ensures Terminated(a + b + c + d + e)
         == Terminated(a) + Terminated(b) + Terminated(c) + Terminated(d) + Terminated(e)
  {
    TerminatedAppend(a, b);
    TerminatedAppend(a + b, c);
    TerminatedAppend(a + b + c, d);
    TerminatedAppend(a + b + c + d, e);
  }

  lemma OpeningLines(spec: string, resize: bool)
    ensures Terminated([OpenLine(spec, resize), TopRule]) == Opening(spec, resize)
  {
    var a := [OpenLine(spec, resize), TopRule];
    assert Terminated(a[1..]) == TopRule + "\n" by { assert a[1..][1..] == []; }
    AppendAssoc(OpenLine(spec, resize) + "\n", TopRule, "\n");
  }

  lemma ClosingLines(resize: bool)
    ensures Terminated([BottomRule, CloseLine(resize)]) == Closing(resize)
  {
    var z := [BottomRule, CloseLine(resize)];
    assert Terminated(z[1..]) == CloseLine(resize) + "\n" by { assert z[1..][1..] == []; }
    AppendAssoc(BottomRule + "\n", CloseLine(resize), "\n");
  }

  /** The snippet is exactly its lines, each with a line break. */
  lemma SnippetIsLines(t: ParsedTable, resize: bool)
    requires Snippet(t, resize).Success?
    ensures var spec := ColSpec(t).value;
            var spec' := if resize then ResizeSpec(spec) else spec;
            Snippet(t, resize).value == Terminated(SnippetLines(t, spec', resize))
  {
    var spec := ColSpec(t).value;
    var spec' := if resize then ResizeSpec(spec) else spec;
    HeaderBlockLines(t.header);
    BodyBlockLines(t.body);
    OpeningLines(spec', resize);
    ClosingLines(resize);
    assert Terminated([MidRule]) == MidLine;
    TerminatedFive([OpenLine(spec', resize), TopRule], HeaderTexts(t.header), [MidRule],
                   BodyTexts(t.body), [BottomRule, CloseLine(resize)]);
  }

  /** No line break occurs in the cells. */
  predicate OneLineCells(rows: seq<seq<string>>) {
    forall i, k :: 0 <= i < |rows| && 0 <= k < |rows[i]| ==> '\n' !in rows[i][k]
  }

  /** A row of one-line cells makes a one-line row. */
  lemma RowTextOneLine(cells: seq<string>)
    requires forall k :: 0 <= k < |cells| ==> '\n' !in cells[k]
    ensures '\n' !in RowText(cells)
  {
    JoinAbsent(" & ", cells, '\n');
  }

  lemma HeadCellsOneLine(row: nat, cells: seq<string>)
    requires forall k :: 0 <= k < |cells| ==> '\n' !in cells[k]
    ensures '\n' !in RowText(HeadCells(row, cells))
  {
    var hc := HeadCells(row, cells);
    forall k | 0 <= k < |hc| ensures '\n' !in hc[k] {
      EscapeKeeps(cells[k], '\n');
    }
    RowTextOneLine(hc);
  }

  /** The fixed lines of a snippet are single lines. */
  lemma FixedLinesOneLine(resize: bool)
    ensures '\n' !in TopRule && '\n' !in MidRule && '\n' !in BottomRule
    ensures '\n' !in CloseLine(resize)
    ensures '\n' !in ScaledOpen && '\n' !in FullWidthOpen
  {
  }

  /** So is the opener, when its spec consists of column letters. */
  lemma OpenLineOneLine(spec: string, resize: bool)
    requires forall k :: 0 <= k < |spec| ==> spec[k] in "rXl"
    ensures '\n' !in OpenLine(spec, resize)
  {
    FixedLinesOneLine(resize);
    assert '\n' !in spec by {
      forall k | 0 <= k < |spec| ensures spec[k] != '\n' { assert spec[k] in "rXl"; }
    }
  }

  /** With one-line cells and a spec of column letters, every snippet line is one line. */
  lemma SnippetLinesOneLine(t: ParsedTable, spec: string, resize: bool)
    requires OneLineCells(t.header) && OneLineCells(t.body)
    requires forall k :: 0 <= k < |spec| ==> spec[k] in "rXl"
    ensures var lines := SnippetLines(t, spec, resize);
            forall i :: 0 <= i < |lines| ==> '\n' !in lines[i]
  {
    var lines := SnippetLines(t, spec, resize);
    var h, b := |t.header|, |t.body|;
    SnippetLinesAt(t, spec, resize);
    FixedLinesOneLine(resize);
    OpenLineOneLine(spec, resize);
    forall i | 2 <= i < 2 + h ensures '\n' !in lines[i] {
      HeadCellsOneLine(i - 2, t.header[i - 2]);
    }
    forall j | 3 + h <= j < 3 + h + b ensures '\n' !in lines[j] {
      RowTextOneLine(t.body[j - 3 - h]);
    }
  }

  /** The column letters of a (possibly resized) spec. */
  lemma SpecLetters(t: ParsedTable, resize: bool)
    requires ColSpec(t).Success?
    ensures var spec := ColSpec(t).value;
            var spec' := if resize then ResizeSpec(spec) else spec;
            forall k :: 0 <= k < |spec'| ==> spec'[k] in "rXl"
  {
  }

  /** Where each part of a snippet sits among its lines. */
  lemma SnippetLinesAt(t: ParsedTable, spec: string, resize: bool)
    ensures var lines := SnippetLines(t, spec, resize);
            var h, b := |t.header|, |t.body|;
            && |lines| == h + b + 5
            && lines[0] == OpenLine(spec, resize) && lines[1] == TopRule && lines[2 + h] == MidRule
            && lines[3 + h + b] == BottomRule && lines[4 + h + b] == CloseLine(resize)
            && (forall i :: 0 <= i < h ==> lines[2 + i] == RowText(HeadCells(i, t.header[i])))
            && (forall j :: 0 <= j < b ==> lines[3 + h + j] == RowText(t.body[j]))
  {
  }

  /** Re-reading the snippet line by line gives back the table's shape: one line per header
      row and per body row between the rules, each holding the row's cells. */
  lemma SnippetRows(t: ParsedTable, resize: bool)
    requires Snippet(t, resize).Success?
    requires OneLineCells(t.header) && OneLineCells(t.body)
    ensures var segs := Split(Snippet(t, resize).value, '\n');
            && |segs| == |t.header| + |t.body| + 6
            && segs[0] == OpenLine(if resize then ResizeSpec(ColSpec(t).value) else ColSpec(t).value, resize)
            && segs[1] == TopRule && segs[2 + |t.header|] == MidRule
            && segs[3 + |t.header| + |t.body|] == BottomRule
            && segs[4 + |t.header| + |t.body|] == CloseLine(resize)
            && (forall i :: 0 <= i < |t.header| ==> segs[2 + i] == RowText(HeadCells(i, t.header[i])))
            && (forall j :: 0 <= j < |t.body| ==> segs[3 + |t.header| + j] == RowText(t.body[j]))
  {
    var spec := ColSpec(t).value;
    var spec' := if resize then ResizeSpec(spec) else spec;
    var lines := SnippetLines(t, spec', resize);
    SpecLetters(t, resize);
    SnippetIsLines(t, resize);
    SnippetLinesOneLine(t, spec', resize);
    SplitTerminated(lines);
    SnippetLinesAt(t, spec', resize);
    var segs := Split(Snippet(t, resize).value, '\n');
    assert segs == lines + [""];
    assert forall k :: 0 <= k < |lines| ==> segs[k] == lines[k];
  }

  /** Re-reading the columns: a row of n cells without `&` has n - 1 separators. */
  lemma RowColumns(cells: seq<string>)
    requires |cells| > 0
    requires forall k :: 0 <= k < |cells| ==> '&' !in cells[k]
    ensures Count(RowText(cells), '&') == |cells| - 1
  {
    assert Count(" & ", '&') == 1;
    CountJoin(" & ", cells, '&');
    CountAbsent("  ", '&');
    CountAbsent(@"\\", '&');
    CountAppend("  ", Join(" & ", cells), '&');
    CountAppend("  " + Join(" & ", cells), @"\\", '&');
  }

  /** The same for header rows: escaping adds no separator. */
  lemma HeaderColumns(row: nat, cells: seq<string>)
    requires |cells| > 0
    requires forall k :: 0 <= k < |cells| ==> '&' !in cells[k]
    ensures Count(RowText(HeadCells(row, cells)), '&') == |cells| - 1
  {
    var hc := HeadCells(row, cells);
    forall k | 0 <= k < |hc| ensures '&' !in hc[k] {
      EscapeKeeps(cells[k], '&');
    }
    RowColumns(hc);
  }

  /** `cell.table_output()` as a function of the cell and of the HTML parser (`None` for a
      fragment the parser refuses). */
  function TableOutputOf(c: Cell, parse: string -> Option<ParsedTable>): Result<string> {
    var tables := TableFragments(c.outputs);
    if |tables| == 0 then Failure(NoTable)
    else if |tables| > 1 then Failure(MultipleTables)
    else
      var parsed := parse(tables[0]);
      if parsed.None? then Failure(MalformedTable) else Snippet(parsed.value, Resize(c))
  }

  /** `cell.table_output()`: refuses zero or several table candidates and a fragment the
      parser refuses, then emits the parsed table. */
  method TableOutput(c: Cell, parse: string -> Option<ParsedTable>) returns (r: Result<string>)
    ensures r == TableOutputOf(c, parse)
    ensures r == Failure(NoTable) <==> |TableFragments(c.outputs)| == 0
    ensures r == Failure(MultipleTables) <==> |TableFragments(c.outputs)| > 1
  {
    var tables := TableFragments(c.outputs);
    if |tables| == 0 {
      return Failure(NoTable);
    }
    if |tables| > 1 {
      return Failure(MultipleTables);
    }
    var parsed := parse(tables[0]);
    if parsed.None? {
      return Failure(MalformedTable);
    }
    r := EmitTable(parsed.value, Resize(c));
  }

  /** The column spec inference of `table_output`, reassigning the spec in branches as the
      source does. */
  method InferColSpec(t: ParsedTable) returns (r: Result<string>)
    ensures r == ColSpec(t)
  {
    var header, body := t.header, t.body;
    var colspec: string;
    if IsTibbleHeader(header) {
      colspec := TibbleSpec(header[1]);
      if 'X' !in colspec {
        colspec := Repeat('X', |colspec|);
      }
    } else if |body| > 0 {
      colspec := Repeat('X', |body[0]|);
    } else {
      return Failure(NoBodyRows);
    }
    return Success(colspec);
  }

  /** The emitting part of `table_output`, step by step as in the source: infer the column
      spec, then append the header rows and the body rows one at a time. */
  method EmitTable(t: ParsedTable, resize: bool) returns (r: Result<string>)
    ensures r == Snippet(t, resize)
  {
    var header, body := t.header, t.body;
    if |header| == 0 {
      return Failure(EmptyHeader);
    }
    var inferred := InferColSpec(t);
    if inferred.Failure? {
      return Failure(inferred.error);
    }
    var colspec := inferred.value;
    var result: string;
    if resize {
      colspec := ResizeSpec(colspec);
      result := ScaledOpen + colspec + "}" + "\n" + TopRule + "\n";
    } else {
      result := FullWidthOpen + colspec + "}" + "\n" + TopRule + "\n";
    }
    ghost var opening := result;
    assert opening == Opening(colspec, resize);
    var i := 0;
    while i < |header|
      invariant 0 <= i <= |header|
      invariant result == opening + HeaderBlock(header[..i])
    {
      HeaderBlockSnoc(header, i);
      AppendAssoc(opening, HeaderBlock(header[..i]), Row(HeadCells(i, header[i])));
      result := result + Row(HeadCells(i, header[i]));
      i := i + 1;
    }
    assert header[..i] == header;
    result := result + MidLine;
    ghost var middle := result;
    var k := 0;
    while k < |body|
      invariant 0 <= k <= |body|
      invariant result == middle + BodyBlock(body[..k])
    {
      BodyBlockSnoc(body, k);
      AppendAssoc(middle, BodyBlock(body[..k]), Row(body[k]));
      result := result + Row(body[k]);
      k := k + 1;
    }
    assert body[..k] == body;
    assert Snippet(t, resize) == Success(middle + BodyBlock(body) + Closing(resize));
    if resize {
      result := result + (BottomRule + "\n" + ScaledClose + "\n");
    } else {
      result := result + (BottomRule + "\n" + FullWidthClose + "\n");
    }
    return Success(result);
  }
}
