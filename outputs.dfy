/** The output classifier of a cell (`get_text_outputs`, `get_png_outputs`,
    `get_html_outputs`, `get_table_outputs`) and the payloads built on it
    (`text_output`, the selection in `png_output`, the renderer input of
    `html_pdf_output`). Each walk visits the records in order, as the source's
    generators do. */
module Outputs {
  import opened NotebookData
  import opened Strings
  import CharRefs

  /** The text lines one record yields to `get_text_outputs`: stdout streams their text,
      other streams nothing, image records nothing, other display/result records their
      `text/plain` (a missing one is a key error), anything else nothing. */
  function RecordText(o: Output): Result<seq<string>> {
    if o.Stream? then Success(if o.name == "stdout" then o.text else [])
    else if o.IsRich() then
      if o.data.png.Some? then Success([])
      else if o.data.plain.Some? then Success(o.data.plain.value)
      else Failure(MissingTextPlain)
    else Success([])
  }

  /** Runs one part of a walk after another: the first failure wins, else the lines are
      concatenated. */
  function Then(a: Result<seq<string>>, b: Result<seq<string>>): Result<seq<string>> {
    if a.Failure? then a else if b.Failure? then b else Success(a.value + b.value)
  }

  /** `list(cell.get_text_outputs())`. */
  function TextLines(outs: seq<Output>): Result<seq<string>>
    decreases |outs|
  {
    if |outs| == 0 then Success([]) else Then(RecordText(outs[0]), TextLines(outs[1..]))
  }

  /** The text of a list of records is the text of its first part followed by that of the
      rest. */
  lemma {:induction false} TextLinesAppend(a: seq<Output>, b: seq<Output>)
    ensures TextLines(a + b) == Then(TextLines(a), TextLines(b))
    decreases |a|
  {
    if |a| == 0 {
      assert a + b == b;
      if TextLines(b).Success? {
        assert [] + TextLines(b).value == TextLines(b).value;
      }
    } else {
      assert (a + b)[0] == a[0] && (a + b)[1..] == a[1..] + b;
      TextLinesAppend(a[1..], b);
      ThenAssoc(RecordText(a[0]), TextLines(a[1..]), TextLines(b));
    }
  }

  lemma ThenAssoc(x: Result<seq<string>>, y: Result<seq<string>>, z: Result<seq<string>>)
    ensures Then(x, Then(y, z)) == Then(Then(x, y), z)
  {
    if x.Success? && y.Success? && z.Success? {
      assert x.value + (y.value + z.value) == (x.value + y.value) + z.value;
    }
  }

  /** A record that yields no lines can be inserted anywhere without changing the text. */
  lemma SilentRecord(a: seq<Output>, o: Output, b: seq<Output>)
    requires RecordText(o) == Success([])
    ensures TextLines(a + [o] + b) == TextLines(a + b)
  {
    TextLinesAppend(a + [o], b);
    TextLinesAppend(a, [o]);
    TextLinesAppend(a, b);
    assert [o][1..] == [];
    assert TextLines([o]) == Then(RecordText(o), TextLines([]));
    var none: seq<string> := [];
    assert none + none == none;
    assert TextLines([o]) == Success([]);
    if TextLines(a).Success? {
      assert TextLines(a).value + [] == TextLines(a).value;
    }
    assert Then(TextLines(a), TextLines([o])) == TextLines(a);
  }

  /** stderr (and any other non-stdout stream) never reaches the text output. */
  lemma StderrIgnored(a: seq<Output>, name: string, text: seq<string>, b: seq<Output>)
    requires name != "stdout"
    ensures TextLines(a + [Stream(name, text)] + b) == TextLines(a + b)
  {
    SilentRecord(a, Stream(name, text), b);
  }

  /** A display or result record with an image contributes no text, even if it carries a
      `text/plain` caption. */
  lemma ImageSuppressesText(a: seq<Output>, o: Output, b: seq<Output>)
    requires o.IsRich() && o.data.png.Some?
    ensures TextLines(a + [o] + b) == TextLines(a + b)
  {
    SilentRecord(a, o, b);
  }

  /** A stdout stream contributes all its lines, exactly where it stands. */
  lemma StdoutContributes(a: seq<Output>, text: seq<string>, b: seq<Output>)
    requires TextLines(a).Success? && TextLines(b).Success?
    ensures TextLines(a + [Stream("stdout", text)] + b)
         == Success(TextLines(a).value + text + TextLines(b).value)
  {
    var o := Stream("stdout", text);
    TextLinesAppend(a + [o], b);
    TextLinesAppend(a, [o]);
    assert TextLines([o]) == Then(RecordText(o), TextLines([]));
    assert text + [] == text;
  }

  /** A display or result record without an image contributes its `text/plain` lines,
      exactly where it stands. */
  lemma PlainContributes(a: seq<Output>, o: Output, b: seq<Output>)
    requires o.IsRich() && o.data.png.None? && o.data.plain.Some?
    requires TextLines(a).Success? && TextLines(b).Success?
    ensures TextLines(a + [o] + b)
         == Success(TextLines(a).value + o.data.plain.value + TextLines(b).value)
  {
    TextLinesAppend(a + [o], b);
    TextLinesAppend(a, [o]);
    assert TextLines([o]) == Then(RecordText(o), TextLines([]));
    assert o.data.plain.value + [] == o.data.plain.value;
  }

  /** A display or result record without an image that has no `text/plain`. */
  predicate LacksPlain(o: Output) {
    o.IsRich() && o.data.png.None? && o.data.plain.None?
  }

  /** The text walk fails exactly when some record lacks `text/plain` where it needs one,
      and then fails with that key error. */
  lemma {:induction false} TextLinesFails(outs: seq<Output>)
    ensures TextLines(outs).Failure? <==> exists i :: 0 <= i < |outs| && LacksPlain(outs[i])
    ensures TextLines(outs).Failure? ==> TextLines(outs).error == MissingTextPlain
    decreases |outs|
  {
    if |outs| > 0 {
      TextLinesFails(outs[1..]);
      assert RecordText(outs[0]).Failure? <==> LacksPlain(outs[0]);
      if exists i :: 0 <= i < |outs[1..]| && LacksPlain(outs[1..][i]) {
        var i :| 0 <= i < |outs[1..]| && LacksPlain(outs[1..][i]);
        assert LacksPlain(outs[i + 1]);
      }
      if exists i :: 0 <= i < |outs| && LacksPlain(outs[i]) {
        var i :| 0 <= i < |outs| && LacksPlain(outs[i]);
        if i > 0 {
          assert LacksPlain(outs[1..][i - 1]);
        }
      }
    }
  }

  /** Python's per-line cleaning in `text_output`: `rstrip`, then `×` to `x`. */
  function Clean(x: string): (r: string)
    ensures '×' !in r
    ensures |r| <= |x|
    ensures |r| == 0 || !IsSpace(r[|r| - 1])
  {
    var s := RStrip(x);
    var r := Replace(s, '×', "x");
    assert |r| > 0 ==> r[|r| - 1] == (if s[|s| - 1] == '×' then 'x' else s[|s| - 1]);
    r
  }

  /** A printed line whose text has no `×` and does not end in whitespace is cleaned back
      to its text: only the line break goes. */
  lemma CleanPrintedLine(x: string)
    requires '×' !in x
    requires |x| == 0 || !IsSpace(x[|x| - 1])
    ensures Clean(x + "\n") == x
  {
    assert (x + "\n")[..|x|] == x;
    assert RStrip(x + "\n") == RStrip(x) == x;
    ReplaceAbsent(x, '×', "x");
  }

  function CleanLines(lines: seq<string>): (r: seq<string>)
    ensures |r| == |lines| && forall i :: 0 <= i < |lines| ==> r[i] == Clean(lines[i])
  {
    seq(|lines|, i requires 0 <= i < |lines| => Clean(lines[i]))
  }

  /** `cell.text_output()`: the cleaned lines joined with newlines. */
  function TextOutput(c: Cell): Result<string> {
    var lines := TextLines(c.outputs);
    if lines.Failure? then Failure(lines.error) else Success(Join("\n", CleanLines(lines.value)))
  }

  /** A line as stored in a notebook: a newline can only be its last character. */
  predicate IsLine(l: string) {
    forall i :: 0 <= i < |l| - 1 ==> l[i] != '\n'
  }

  /** Cleaning a stored line leaves no newline in it. */
  lemma CleanNoNewline(l: string)
    requires IsLine(l)
    ensures '\n' !in Clean(l)
  {
    var s := RStrip(l);
    if |l| > 0 && l[|l| - 1] == '\n' {
      assert |s| < |l|;
    }
    assert '\n' !in s by {
      forall k | 0 <= k < |s| ensures s[k] != '\n' { assert s[k] == l[k]; }
    }
    ReplaceKeeps(s, '×', "x", '\n');
  }

  /** What `text_output` promises: no `×` survives; and when the records hold stored lines,
      splitting the output at newlines gives back the cleaned lines one by one, there is
      one newline fewer than lines, and no segment ends in whitespace. */
  lemma TextOutputShape(c: Cell)
    requires TextOutput(c).Success?
    ensures '×' !in TextOutput(c).value
    ensures var lines := TextLines(c.outputs).value;
            (forall i :: 0 <= i < |lines| ==> IsLine(lines[i])) && |lines| > 0 ==>
              var segs := Split(TextOutput(c).value, '\n');
              && segs == CleanLines(lines)
              && Count(TextOutput(c).value, '\n') == |lines| - 1
              && (forall k :: 0 <= k < |segs| ==> |segs[k]| == 0 || !IsSpace(segs[k][|segs[k]| - 1]))
  {
    var lines := TextLines(c.outputs).value;
    var cleaned := CleanLines(lines);
    JoinAbsent("\n", cleaned, '×');
    if (forall i :: 0 <= i < |lines| ==> IsLine(lines[i])) && |lines| > 0 {
      forall i | 0 <= i < |cleaned| ensures '\n' !in cleaned[i] {
        CleanNoNewline(lines[i]);
      }
      SplitJoin(cleaned, '\n');
      CountJoin("\n", cleaned, '\n');
    }
  }

  /** The image payload of a display or result record, if it has one. */
  function ImageOf(o: Output): Option<string> {
    if o.IsRich() then o.data.png else None
  }

  /** `list(cell.get_png_outputs())`. */
  function PngPayloads(outs: seq<Output>): (r: seq<string>)
    ensures |r| <= |outs|
    decreases |outs|
  {
    if |outs| == 0 then []
    else (if ImageOf(outs[0]).Some? then [ImageOf(outs[0]).value] else []) + PngPayloads(outs[1..])
  }

  lemma {:induction false} PngPayloadsAppend(a: seq<Output>, b: seq<Output>)
    ensures PngPayloads(a + b) == PngPayloads(a) + PngPayloads(b)
    decreases |a|
  {
    if |a| == 0 {
      assert a + b == b;
    } else {
      var h := if ImageOf(a[0]).Some? then [ImageOf(a[0]).value] else [];
      assert (a + b)[0] == a[0] && (a + b)[1..] == a[1..] + b;
      assert PngPayloads(a + b) == h + PngPayloads(a[1..] + b);
      PngPayloadsAppend(a[1..], b);
      assert PngPayloads(a) == h + PngPayloads(a[1..]);
    }
  }

  /** The one image record, if the walk yields exactly one payload. */
  lemma {:induction false} SingleImageFound(outs: seq<Output>, x: string) returns (i: nat)
    requires PngPayloads(outs) == [x]
    ensures i < |outs| && ImageOf(outs[i]) == Some(x)
    ensures forall j :: 0 <= j < |outs| && j != i ==> ImageOf(outs[j]).None?
    decreases |outs|
  {
    NoImage(outs[1..]);
    if ImageOf(outs[0]).Some? {
      assert PngPayloads(outs) == [ImageOf(outs[0]).value] + PngPayloads(outs[1..]);
      assert PngPayloads(outs[1..]) == [];
      assert [ImageOf(outs[0]).value] == [x];
      forall j | 0 < j < |outs| ensures ImageOf(outs[j]).None? {
        assert ImageOf(outs[1..][j - 1]).None?;
      }
      i := 0;
    } else {
      assert PngPayloads(outs) == PngPayloads(outs[1..]);
      var k := SingleImageFound(outs[1..], x);
      forall j | 0 <= j < |outs| && j != k + 1 ensures ImageOf(outs[j]).None? {
        if j > 0 { assert ImageOf(outs[1..][j - 1]).None?; }
      }
      i := k + 1;
    }
  }

  /** A single image record among records without images yields exactly its payload. */
  lemma SingleImagePlaced(outs: seq<Output>, x: string, i: nat)
    requires i < |outs| && ImageOf(outs[i]) == Some(x)
    requires forall j :: 0 <= j < |outs| && j != i ==> ImageOf(outs[j]).None?
    ensures PngPayloads(outs) == [x]
  {
    var before, at, after := outs[..i], [outs[i]], outs[i + 1..];
    assert outs == before + at + after;
    PngPayloadsAppend(before + at, after);
    PngPayloadsAppend(before, at);
    NoImage(before);
    forall j | 0 <= j < |after| ensures ImageOf(after[j]).None? {
      assert after[j] == outs[i + 1 + j];
    }
    NoImage(after);
    assert at[1..] == [];
    assert PngPayloads(at) == [x] + PngPayloads(at[1..]);
    assert PngPayloads(before) == [] && PngPayloads(after) == [];
  }

  /** There is exactly one image payload, `x`, exactly when one record carries image `x`
      and no other record carries an image. */
  lemma SingleImage(outs: seq<Output>, x: string)
    ensures PngPayloads(outs) == [x] <==>
            exists i :: 0 <= i < |outs| && ImageOf(outs[i]) == Some(x)
                        && forall j :: 0 <= j < |outs| && j != i ==> ImageOf(outs[j]).None?
  {
    if PngPayloads(outs) == [x] {
      var i := SingleImageFound(outs, x);
    }
    if exists i :: 0 <= i < |outs| && ImageOf(outs[i]) == Some(x)
                   && forall j :: 0 <= j < |outs| && j != i ==> ImageOf(outs[j]).None? {
      var i :| 0 <= i < |outs| && ImageOf(outs[i]) == Some(x)
               && forall j :: 0 <= j < |outs| && j != i ==> ImageOf(outs[j]).None?;
      SingleImagePlaced(outs, x, i);
    }
  }

  /** There are no image payloads exactly when no record carries an image. */
  lemma {:induction false} NoImage(outs: seq<Output>)
    ensures PngPayloads(outs) == [] <==> forall j :: 0 <= j < |outs| ==> ImageOf(outs[j]).None?
    decreases |outs|
  {
    if |outs| > 0 {
      NoImage(outs[1..]);
      if forall j :: 0 <= j < |outs[1..]| ==> ImageOf(outs[1..][j]).None? {
        forall j | 0 < j < |outs| ensures ImageOf(outs[j]).None? {
          assert ImageOf(outs[1..][j - 1]).None?;
        }
      }
    }
  }

  /** The selection in `cell.png_output()`: it refuses no image and more than one image,
      and otherwise yields the only one (still base64; the decoding is not modelled). */
  function PngOutput(c: Cell): (r: Result<string>)
    ensures r == Failure(NoPng) <==> |PngPayloads(c.outputs)| == 0
    ensures r == Failure(MultiplePng) <==> |PngPayloads(c.outputs)| > 1
    ensures r.Success? <==> |PngPayloads(c.outputs)| == 1
    ensures r.Success? ==> PngPayloads(c.outputs) == [r.value]
  {
    var pngs := PngPayloads(c.outputs);
    if |pngs| == 0 then Failure(NoPng)
    else if |pngs| > 1 then Failure(MultiplePng)
    else Success(pngs[0])
  }

  /** `png_output` yields `x` exactly when `x` is the image of the one and only image
      record. */
  lemma PngOutputIff(c: Cell, x: string)
    ensures PngOutput(c) == Success(x) <==>
            exists i :: 0 <= i < |c.outputs| && ImageOf(c.outputs[i]) == Some(x)
                        && forall j :: 0 <= j < |c.outputs| && j != i ==> ImageOf(c.outputs[j]).None?
  {
    SingleImage(c.outputs, x);
  }

  /** The `text/html` lines of a display or result record, if it has them. */
  function HtmlOf(o: Output): Option<seq<string>> {
    if o.IsRich() then o.data.html else None
  }

  /** `list(cell.get_html_outputs())`: all HTML lines of all records, in order. */
  function HtmlLines(outs: seq<Output>): seq<string>
    decreases |outs|
  {
    if |outs| == 0 then []
    else (if HtmlOf(outs[0]).Some? then HtmlOf(outs[0]).value else []) + HtmlLines(outs[1..])
  }

  lemma {:induction false} HtmlLinesAppend(a: seq<Output>, b: seq<Output>)
    ensures HtmlLines(a + b) == HtmlLines(a) + HtmlLines(b)
    decreases |a|
  {
    if |a| == 0 {
      assert a + b == b;
    } else {
      assert (a + b)[0] == a[0] && (a + b)[1..] == a[1..] + b;
      HtmlLinesAppend(a[1..], b);
    }
  }

  /** The text `html_pdf_output` hands to the renderer: the HTML lines joined with newlines,
      then made ASCII with numeric character references. */
  function HtmlPdfInput(c: Cell): (r: seq<CharRefs.Byte>)
    ensures forall i :: 0 <= i < |r| ==> r[i] < 128
  {
    CharRefs.Encode(Join("\n", HtmlLines(c.outputs)))
  }

  /** The renderer input carries the joined HTML without loss: decoding the character
      references gives it back whenever the HTML itself has no `&`. */
  lemma HtmlPdfInputDecodes(c: Cell)
    requires '&' !in Join("\n", HtmlLines(c.outputs))
    ensures CharRefs.Decode(HtmlPdfInput(c)) == Some(Join("\n", HtmlLines(c.outputs)))
  {
    CharRefs.DecodeEncode(Join("\n", HtmlLines(c.outputs)));
  }

  /** The heuristic of `get_table_outputs`. */
  const TableEnd := "</table>"

  /** The joined HTML of a record, when it is a table candidate. */
  function TableOf(o: Output): Option<string> {
    if o.IsRich() && o.data.html.Some? && Contains(Join("", o.data.html.value), TableEnd)
    then Some(Join("", o.data.html.value))
    else None
  }

  /** `list(cell.get_table_outputs())`. */
  function TableFragments(outs: seq<Output>): (r: seq<string>)
    ensures |r| <= |outs|
    ensures forall i :: 0 <= i < |r| ==> Contains(r[i], TableEnd)
    decreases |outs|
  {
    if |outs| == 0 then []
    else (if TableOf(outs[0]).Some? then [TableOf(outs[0]).value] else []) + TableFragments(outs[1..])
  }

  lemma {:induction false} TableFragmentsAppend(a: seq<Output>, b: seq<Output>)
    ensures TableFragments(a + b) == TableFragments(a) + TableFragments(b)
    decreases |a|
  {
    if |a| == 0 {
      assert a + b == b;
    } else {
      assert (a + b)[0] == a[0] && (a + b)[1..] == a[1..] + b;
      TableFragmentsAppend(a[1..], b);
    }
  }

  /** A fragment is a candidate exactly when some record's joined HTML is it and contains
      `</table>`. */
  lemma {:induction false} TableFragmentsMembership(outs: seq<Output>, x: string)
    ensures x in TableFragments(outs) <==>
            exists i :: 0 <= i < |outs| && TableOf(outs[i]) == Some(x)
    decreases |outs|
  {
    if |outs| > 0 {
      TableFragmentsMembership(outs[1..], x);
      if exists i :: 0 <= i < |outs[1..]| && TableOf(outs[1..][i]) == Some(x) {
        var i :| 0 <= i < |outs[1..]| && TableOf(outs[1..][i]) == Some(x);
        assert TableOf(outs[i + 1]) == Some(x);
      }
      if exists i :: 0 <= i < |outs| && TableOf(outs[i]) == Some(x) {
        var i :| 0 <= i < |outs| && TableOf(outs[i]) == Some(x);
        if i > 0 {
          assert TableOf(outs[1..][i - 1]) == Some(x);
        }
      }
    }
  }
}
