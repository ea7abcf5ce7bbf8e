/** The tag queries of a cell: `Cell.tags`, `snippet_name`, `requested_output`, the
    `table:resize` switch, and the cell's `source`. */
module CellTags {
  import opened NotebookData
  import opened Strings

  /** The namespace prefix a non-empty filter stands for: the filter with a `:` appended
      unless it already ends in one. */
  function Namespace(filter: string): (p: string)
    requires filter != ""
    ensures EndsWith(p, ":") && StartsWith(p, filter)
    ensures EndsWith(filter, ":") <==> p == filter
    ensures !EndsWith(filter, ":") <==> p == filter + ":"
  {
    if EndsWith(filter, ":") then filter else filter + ":"
  }

  /** Each tag that starts with `p`, with `p` removed, in the original order. */
  function Unprefixed(ts: seq<string>, p: string): (r: seq<string>)
    ensures |r| <= |ts|
    decreases |ts|
  {
    if |ts| == 0 then []
    else (if StartsWith(ts[0], p) then [ts[0][|p|..]] else []) + Unprefixed(ts[1..], p)
  }

  /** Reference selection: the tags that start with `p`, unchanged, in order. */
  function WithPrefix(ts: seq<string>, p: string): (r: seq<string>)
    ensures forall i :: 0 <= i < |r| ==> StartsWith(r[i], p)
    decreases |ts|
  {
    if |ts| == 0 then []
    else (if StartsWith(ts[0], p) then [ts[0]] else []) + WithPrefix(ts[1..], p)
  }

  /** `p` put in front of every string. */
  function Prefixed(p: string, xs: seq<string>): (r: seq<string>)
    ensures |r| == |xs| && forall i :: 0 <= i < |xs| ==> r[i] == p + xs[i]
  {
    seq(|xs|, i requires 0 <= i < |xs| => p + xs[i])
  }

  /** Putting the prefix back gives exactly the prefixed tags, in order and with
      repetitions: the query drops nothing and reorders nothing. */
  lemma {:induction false} UnprefixedRestores(ts: seq<string>, p: string)
    ensures Prefixed(p, Unprefixed(ts, p)) == WithPrefix(ts, p)
    decreases |ts|
  {
    if |ts| > 0 {
      UnprefixedRestores(ts[1..], p);
      var head := if StartsWith(ts[0], p) then [ts[0][|p|..]] else [];
      assert Unprefixed(ts, p) == head + Unprefixed(ts[1..], p);
      if StartsWith(ts[0], p) {
        assert p + ts[0][|p|..] == ts[0];
      }
      assert Prefixed(p, head + Unprefixed(ts[1..], p))
          == Prefixed(p, head) + Prefixed(p, Unprefixed(ts[1..], p));
    }
  }

  /** A payload is returned exactly when its prefixed tag is present. */
  lemma {:induction false} UnprefixedMembership(ts: seq<string>, p: string, x: string)
    ensures x in Unprefixed(ts, p) <==> p + x in ts
    decreases |ts|
  {
    if |ts| > 0 {
      UnprefixedMembership(ts[1..], p, x);
      assert ts == [ts[0]] + ts[1..];
      if StartsWith(ts[0], p) {
        assert ts[0] == p + ts[0][|p|..];
        if p + x == ts[0] {
          assert (p + x)[|p|..] == x;
        }
      } else {
        assert p + x != ts[0] by {
          assert (p + x)[..|p|] == p;
        }
      }
    }
  }

  /** `Cell.tags(filter)`; `None` and `""` both mean "no filter". */
  function Tags(c: Cell, filter: Option<string>): seq<string> {
    if filter.None? || filter.value == "" then RawTags(c)
    else Unprefixed(RawTags(c), Namespace(filter.value))
  }

  /** Without a filter the raw tags come back unchanged; a cell without a `tags` key has
      none. */
  lemma TagsUnfiltered(c: Cell, filter: Option<string>)
    requires filter.None? || filter == Some("")
    ensures Tags(c, filter) == RawTags(c)
    ensures c.tags.None? ==> Tags(c, filter) == []
  {
  }

  /** With a filter, a payload is returned exactly when the tag "namespace:payload" is
      present, and there is one result per tag in the namespace. */
  lemma TagsFiltered(c: Cell, filter: string, x: string)
    requires filter != ""
    ensures x in Tags(c, Some(filter)) <==> Namespace(filter) + x in RawTags(c)
    ensures Prefixed(Namespace(filter), Tags(c, Some(filter)))
         == WithPrefix(RawTags(c), Namespace(filter))
  {
    UnprefixedMembership(RawTags(c), Namespace(filter), x);
    UnprefixedRestores(RawTags(c), Namespace(filter));
  }

  /** `Cell.snippet_name`: refuses more than one `snippet:` tag, otherwise the payload of
      the only one, or nothing. */
  function SnippetName(c: Cell): (r: Result<Option<string>>)
    ensures r.Failure? <==> |WithPrefix(RawTags(c), "snippet:")| > 1
    ensures r.Failure? ==> r.error.MultipleSnippetTags?
    ensures r == Success(None) <==> |WithPrefix(RawTags(c), "snippet:")| == 0
    ensures r.Success? && r.value.Some? ==>
              WithPrefix(RawTags(c), "snippet:") == ["snippet:" + r.value.value]
  {
    assert Namespace("snippet") == "snippet:" by {
      assert "snippet"[|"snippet"| - 1..] != ":";
    }
    var snippets := Tags(c, Some("snippet"));
    UnprefixedRestores(RawTags(c), "snippet:");
    if |snippets| > 1 then Failure(MultipleSnippetTags(snippets))
    else if |snippets| == 1 then Success(Some(snippets[0]))
    else Success(None)
  }

  /** `Cell.requested_output`. */
  function RequestedOutput(c: Cell): seq<string> {
    Tags(c, Some("output"))
  }

  /** `kind in cell.requested_output`. */
  predicate Requests(c: Cell, kind: string) {
    kind in RequestedOutput(c)
  }

  /** An output kind is requested exactly when the tag "output:kind" is present. */
  lemma RequestsIff(c: Cell, kind: string)
    ensures Requests(c, kind) <==> "output:" + kind in RawTags(c)
  {
    assert Namespace("output") == "output:" by {
      assert "output"[|"output"| - 1..] != ":";
    }
    UnprefixedMembership(RawTags(c), "output:", kind);
  }

  /** `"resize" in self.tags("table:")`. */
  predicate Resize(c: Cell) {
    "resize" in Tags(c, Some("table:"))
  }

  /** The resize switch is exactly the tag "table:resize". */
  lemma ResizeIff(c: Cell)
    ensures Resize(c) <==> "table:resize" in RawTags(c)
  {
    assert Namespace("table:") == "table:" by {
      assert "table:"[|"table:"| - 1..] == ":";
    }
    assert "table:" + "resize" == "table:resize";
    UnprefixedMembership(RawTags(c), "table:", "resize");
  }

  /** `Cell.source`: the source fragments concatenated. */
  function Source(c: Cell): string {
    Join("", c.source)
  }

  /** The source of more fragments extends the source of the first ones. */
  lemma {:induction false} SourceAppend(c: Cell, more: seq<string>)
    ensures Source(c.(source := c.source + more)) == Source(c) + Source(c.(source := more))
  {
    if |c.source| > 0 && |more| > 0 {
      JoinAppend("", c.source, more);
    } else if |c.source| == 0 {
      assert c.source + more == more;
    } else {
      assert c.source + more == c.source;
    }
  }
}
