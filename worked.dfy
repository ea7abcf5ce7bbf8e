/** Worked instances of the exporter's behaviour, following the snippets its test suite
    exports (tests/test_jupro.py). */
module Examples {
  import opened NotebookData
  import opened Strings
  import opened CellTags
  import opened Outputs
  import opened Tables
  import opened Snippets

  function CodeCell(tags: seq<string>, outputs: seq<Output>): Cell {
    Cell("code", ["x = 1\n"], Some(tags), outputs)
  }

  /** Two printed lines as a cell's text output: each loses its line break, and they are
      joined by one. */
  lemma TwoPrints(a: string, b: string, o: seq<Output>)
    requires '×' !in a && '×' !in b
    requires |a| > 0 && !IsSpace(a[|a| - 1]) && |b| > 0 && !IsSpace(b[|b| - 1])
    requires TextLines(o) == Success([a + "\n", b + "\n"])
    ensures TextOutput(CodeCell([], o)) == Success(a + "\n" + b)
  {
    CleanPrintedLine(a);
    CleanPrintedLine(b);
    var cl := CleanLines([a + "\n", b + "\n"]);
    assert cl == [a, b];
    assert cl[1..] == [b];
    assert Join("\n", cl) == a + "\n" + b;
  }

  /** Two prints (tests/test_jupro.py:26-29). */
  lemma PrintsExample()
    ensures TextOutput(CodeCell([],
              [Stream("stdout", ["first print\n"]), Stream("stdout", ["second print\n"])]))
         == Success("first print\nsecond print")
  {
    var a, b := "first print", "second print";
    PrintsGlued();
    var o := [Stream("stdout", ["first print\n"]), Stream("stdout", ["second print\n"])];
    TextLinesAppend([o[0]], [o[1]]);
    assert o == [o[0]] + [o[1]];
    assert TextLines([o[1]]) == Success([b + "\n"]) by {
      var l := [b + "\n"];
      assert [o[1]][1..] == [] && l + [] == l;
    }
    assert TextLines([o[0]]) == Success([a + "\n"]) by {
      var l := [a + "\n"];
      assert [o[0]][1..] == [] && l + [] == l;
    }
    assert [a + "\n"] + [b + "\n"] == [a + "\n", b + "\n"];
    TwoPrints(a, b, o);
  }

  lemma PrintsGlued()
    ensures "first print" + "\n" == "first print\n"
    ensures "second print" + "\n" == "second print\n"
    ensures "first print" + "\n" + "second print" == "first print\nsecond print"
  {
  }

  /** A tibble with a numeric and a character column gets the spec "rX". */
  lemma TibbleExample()
    ensures ColSpec(ParsedTable([["x", "y"], ["<dbl>", "<chr>"]], [["1", "a"]])) == Success("rX")
  {
    var t := ParsedTable([["x", "y"], ["<dbl>", "<chr>"]], [["1", "a"]]);
    assert IsTibbleHeader(t.header);
    assert TibbleSpec(t.header[1]) == "rX";
  }
}
