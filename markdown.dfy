/**
 * The line-oriented markdown renderer of the result panel
 * (`MarkdownRenderer` in components/ResultDisplay.tsx): the text is split
 * into lines, each line is classified in a fixed order, and one buffer of
 * table rows is carried from line to line until a flush turns it into a
 * single table block.
 */
module Markdown {
  import opened JsString
  import opened Optional

  // ---------------------------------------------------------------------
  // Inline bold: formatText

  /** A piece of `formatText`'s output: plain text or a `<strong>` span. */
  datatype Span = Plain(text: string) | Strong(text: string)

  function Texts(spans: seq<Span>): (ts: seq<string>)
    ensures |ts| == |spans| && forall i :: 0 <= i < |spans| ==> ts[i] == spans[i].text
  {
    seq(|spans|, i requires 0 <= i < |spans| => spans[i].text)
  }

  /** `line.split('**')`, with every odd-indexed segment bold; the texts are
      exactly the pieces of the split, cut at the leftmost markers
      (`SplitLeftmost`). */
  function FormatText(line: string): (r: seq<Span>)
    ensures Texts(r) == Split(line, "**")
    ensures |r| == Count(line, "**") + 1
    ensures forall i :: 0 <= i < |r| ==> (r[i].Strong? <==> i % 2 == 1)
    ensures Join(Texts(r), "**") == line
  {
    var parts := Split(line, "**");
    var r := seq(|parts|, i requires 0 <= i < |parts| =>
      if i % 2 == 1 then Strong(parts[i]) else Plain(parts[i]));
    assert Texts(r) == parts;
    JoinSplit(line, "**");
    r
  }

  /** A line without `*` is one plain segment. */
  lemma NoStarNoBold(s: string)
    requires '*' !in s
    ensures FormatText(s) == [Plain(s)]
  {
    SplitWithoutSeparatorStart(s, "**");
  }

  /** With an odd number of markers the last segment is bold: an unclosed
      `**` makes the rest of the line bold. */
  lemma UnclosedBoldRunsToEnd(line: string)
    requires Count(line, "**") % 2 == 1
    ensures FormatText(line)[|FormatText(line)| - 1].Strong?
  {
  }

  /** `**bold` with no closing marker: nothing is lost and `bold` is bold. */
  lemma UnclosedBoldExample()
    ensures FormatText("**bold") == [Plain(""), Strong("bold")]
  {
    var s := "**bold";
    assert s[..2] == "**";
    assert s[2..] == "bold";
    NoStarNoBold("bold");
    assert Split(s, "**") == ["", "bold"];
  }

  // ---------------------------------------------------------------------
  // Table rows

  /** The row test of the line loop, on the trimmed line. */
  predicate IsRowCandidate(trimmed: string) {
    '|' in trimmed && !StartsWith(trimmed, "---")
  }

  /** The untrimmed line both starts and ends with `|`: every cell is kept. */
  predicate Bracketed(line: string) {
    StartsWith(line, "|") && EndsWith(line, "|")
  }

  /** `pieces.filter(c => c.trim() !== '')` */
  function NonBlank(pieces: seq<string>): (r: seq<string>)
    ensures |r| <= |pieces|
    decreases |pieces|
  {
    if |pieces| == 0 then []
    else (if Trim(pieces[0]) != "" then [pieces[0]] else []) + NonBlank(pieces[1..])
  }

  /** The filter keeps exactly the non-blank pieces. */
  lemma {:induction false} NonBlankShape(pieces: seq<string>)
    ensures forall c :: c in NonBlank(pieces) <==> c in pieces && Trim(c) != ""
    decreases |pieces|
  {
    if |pieces| > 0 {
      NonBlankShape(pieces[1..]);
      assert pieces == [pieces[0]] + pieces[1..];
    }
  }

  /** The filter on one piece: kept exactly when it is not blank. */
  lemma NonBlankSingle(c: string)
    ensures NonBlank([c]) == if Trim(c) != "" then [c] else []
  {
    assert [c][1..] == [];
  }

  /** The filter distributes over concatenation, so it keeps the order and
      the multiplicity of the pieces it keeps. */
  lemma {:induction false} NonBlankAppend(a: seq<string>, b: seq<string>)
    ensures NonBlank(a + b) == NonBlank(a) + NonBlank(b)
    decreases |a|
  {
    if |a| > 0 {
      assert (a + b)[0] == a[0];
      assert (a + b)[1..] == a[1..] + b;
      NonBlankAppend(a[1..], b);
    } else {
      assert a + b == b;
    }
  }

  /** The cells of a row: `trimmed.split('|')`, keeping blank cells only
      when the untrimmed line starts and ends with `|`. */
  function Cells(line: string): seq<string> {
    var pieces := Split(Trim(line), "|");
    if Bracketed(line) then pieces else NonBlank(pieces)
  }

  /** A line between pipes keeps every piece, so nothing of the trimmed line
      is lost; any other line keeps exactly its non-blank pieces, filtered
      in order by `NonBlank` (see `NonBlankAppend`, `NonBlankSingle`). */
  lemma CellsShape(line: string)
    ensures Bracketed(line) ==>
      |Cells(line)| == Count(Trim(line), "|") + 1 && Join(Cells(line), "|") == Trim(line)
    ensures !Bracketed(line) ==>
      && Cells(line) == NonBlank(Split(Trim(line), "|"))
      && forall c :: c in Cells(line) <==> c in Split(Trim(line), "|") && Trim(c) != ""
  {
    JoinSplit(Trim(line), "|");
    NonBlankShape(Split(Trim(line), "|"));
  }

  /** The cells a line adds to the table buffer, if it is a table row. */
  function RowCells(line: string): Option<seq<string>> {
    if IsRowCandidate(Trim(line)) && |Cells(line)| > 0 then Some(Cells(line)) else None
  }

  // ---------------------------------------------------------------------
  // Blocks and the classification of one line

  /** A rendered block; `key` is the React key: the index of the line that
      produced it, or for a table the index of the line that flushed it. */
  datatype Block =
    | Heading(key: nat, level: nat, text: string)
    | Blockquote(key: nat, text: string)
    | Bullet(key: nat, text: string)
    | Spacer(key: nat)
    | Paragraph(key: nat, text: string)
    | Table(key: nat, header: seq<string>, rows: seq<seq<string>>)

  /** A character of the class `[\s\-\*]`. */
  predicate IsBulletMarker(c: char) {
    IsWhitespace(c) || c == '-' || c == '*'
  }

  /** `s.replace(/^[\s\-\*]+/, '')` */
  function StripBulletMarkers(s: string): (r: string)
    ensures |r| <= |s|
    decreases |s|
  {
    if |s| > 0 && IsBulletMarker(s[0]) then StripBulletMarkers(s[1..]) else s
  }

  /** Exactly the longest prefix of marker characters is removed. */
  lemma {:induction false} StripBulletMarkersShape(s: string)
    ensures var r := StripBulletMarkers(s);
      && r == s[|s| - |r|..]
      && (forall i :: 0 <= i < |s| - |r| ==> IsBulletMarker(s[i]))
      && (r == [] || !IsBulletMarker(r[0]))
    decreases |s|
  {
    if |s| > 0 && IsBulletMarker(s[0]) {
      StripBulletMarkersShape(s[1..]);
      var r := StripBulletMarkers(s[1..]);
      assert s[1..][|s| - 1 - |r|..] == s[|s| - |r|..];
      forall i | 0 <= i < |s| - |r| ensures IsBulletMarker(s[i]) {
        if i > 0 {
          assert s[1..][i - 1] == s[i];
        }
      }
    }
  }

  /** The chain of `startsWith` tests on the trimmed line. */
  function Classify(line: string, key: nat): (b: Block)
    ensures b.key == key && !b.Table?
  {
    var t := Trim(line);
    if StartsWith(t, "### ") then Heading(key, 3, RemoveFirst(t, "### "))
    else if StartsWith(t, "## ") then Heading(key, 2, RemoveFirst(t, "## "))
    else if StartsWith(t, "# ") then Heading(key, 1, RemoveFirst(t, "# "))
    else if StartsWith(t, "> ") then Blockquote(key, RemoveFirst(t, "> "))
    else if StartsWith(t, "- ") || StartsWith(t, "* ") then Bullet(key, StripBulletMarkers(t))
    else if t == "" then Spacer(key)
    else Paragraph(key, line)
  }

  /** What each kind of line becomes: the first matching prefix of the
      trimmed line decides, the prefix is dropped from the text, and a line
      matching none is a spacer when blank and otherwise a paragraph of the
      untrimmed line.
      This only cases out `Classify`; what rendering means is stated by
      `NoTableRowLost`, `BlocksInLineOrder` and `TablesCloseAtTheirLine`. */
  lemma ClassifyCases(line: string, key: nat)
    ensures var t, b := Trim(line), Classify(line, key);
      && (b.Heading? && b.level == 3 <==> StartsWith(t, "### "))
      && (b.Heading? && b.level == 2 <==> !StartsWith(t, "### ") && StartsWith(t, "## "))
      && (b.Heading? && b.level == 1 <==>
            !StartsWith(t, "### ") && !StartsWith(t, "## ") && StartsWith(t, "# "))
      && (b.Heading? ==> b.level in {1, 2, 3} && b.text == t[b.level + 1..])
      && (b.Blockquote? <==> !b.Heading? && StartsWith(t, "> "))
      && (b.Blockquote? ==> b.text == t[2..])
      && (b.Bullet? <==> !b.Heading? && !b.Blockquote? && (StartsWith(t, "- ") || StartsWith(t, "* ")))
      && (b.Bullet? ==> b.text == StripBulletMarkers(t) && |b.text| < |t|)
      && (b.Spacer? <==> AllWhitespace(line))
      && (b.Paragraph? ==> b.text == line)
  {
    TrimShape(line);
    var t := Trim(line);
    if StartsWith(t, "- ") || StartsWith(t, "* ") {
      StripBulletMarkersShape(t);
    }
  }

  // ---------------------------------------------------------------------
  // The line loop as a function

  /** What one iteration of the loop reads off its line before it looks at
      the state: the row test on the trimmed line, the cells, the `---` test
      and the block the line becomes when it is not buffered. */
  datatype LineView = LineView(candidate: bool, cells: seq<string>, rule: bool, block: Block)

  function View(line: string, idx: nat): LineView {
    var t := Trim(line);
    LineView(IsRowCandidate(t), Cells(line), Contains(t, "---"), Classify(line, idx))
  }

  /** The view of every line, the line's index being its key. */
  function Views(lines: seq<string>): (vs: seq<LineView>)
    ensures |vs| == |lines|
    decreases |lines|
  {
    if |lines| == 0 then []
    else Views(lines[..|lines| - 1]) + [View(lines[|lines| - 1], |lines| - 1)]
  }

  lemma {:induction false} ViewsAt(lines: seq<string>, i: nat)
    requires i < |lines|
    ensures Views(lines)[i] == View(lines[i], i)
    decreases |lines|
  {
    var init := lines[..|lines| - 1];
    if i < |init| {
      ViewsAt(init, i);
    }
  }

  /** `elements` and `currentTable` of renderContent. */
  datatype RenderState = RenderState(blocks: seq<Block>, table: seq<seq<string>>)

  /** `flushTable(key)` */
  function Flush(st: RenderState, key: nat): RenderState {
    if |st.table| == 0 then st
    else RenderState(st.blocks + [Table(key, st.table[0], st.table[1..])], [])
  }

  /** One iteration of `lines.forEach((line, idx) => ...)`. */
  function Step(st: RenderState, v: LineView, idx: nat): RenderState {
    if v.candidate then
      if |v.cells| > 0 then RenderState(st.blocks, st.table + [v.cells])
      else RenderState(st.blocks + [v.block], st.table)
    else if |st.table| > 0 then
      if !v.rule then RenderState(Flush(st, idx).blocks + [v.block], [])
      else st
    else RenderState(st.blocks + [v.block], st.table)
  }

  /** The state after the first `n` lines. */
  function RenderLines(views: seq<LineView>, n: nat): RenderState
    requires n <= |views|
  {
    if n == 0 then RenderState([], [])
    else Step(RenderLines(views, n - 1), views[n - 1], n - 1)
  }

  lemma RenderLinesUnfold(views: seq<LineView>, n: nat)
    requires 0 < n <= |views|
    ensures RenderLines(views, n) == Step(RenderLines(views, n - 1), views[n - 1], n - 1)
  {
  }

  /** `text.split('\n')`: one line more than there are line breaks, and the
      lines joined by line breaks give back the text. */
  function Lines(text: string): (lines: seq<string>)
    ensures |lines| == Count(text, "\n") + 1
    ensures Join(lines, "\n") == text
  {
    JoinSplit(text, "\n");
    Split(text, "\n")
  }

  /** What `renderContent` returns for `text`. */
  function Render(text: string): seq<Block> {
    var lines := Lines(text);
    Flush(RenderLines(Views(lines), |lines|), |lines|).blocks
  }

  /** What one line does to the state: a row is buffered; a line that
      passes the row test without cells becomes its own block and leaves
      the buffer alone; any other line, met while a table is open, is
      dropped when it holds `---` and otherwise emits the table under its
      own index and then its own block; with no table open it becomes its
      own block.
      This only cases out `Step`; what rendering means is stated by
      `NoTableRowLost`, `BlocksInLineOrder` and `TablesCloseAtTheirLine`. */
  lemma StepCases(st: RenderState, line: string, idx: nat)
    ensures var t, next := Trim(line), Step(st, View(line, idx), idx);
      && (RowCells(line).Some? ==> next == RenderState(st.blocks, st.table + [RowCells(line).value]))
      && (IsRowCandidate(t) && RowCells(line).None? ==>
            next == RenderState(st.blocks + [Classify(line, idx)], st.table))
      && (!IsRowCandidate(t) && st.table != [] && Contains(t, "---") ==> next == st)
      && (!IsRowCandidate(t) && st.table != [] && !Contains(t, "---") ==>
            next == RenderState(st.blocks + [Table(idx, st.table[0], st.table[1..]), Classify(line, idx)], []))
      && (!IsRowCandidate(t) && st.table == [] ==> next == RenderState(st.blocks + [Classify(line, idx)], []))
  {
  }

  // ---------------------------------------------------------------------
  // The line loop as the source writes it

  /** The closure state of one `renderContent` call. */
  class Renderer {
    var elements: seq<Block>
    var currentTable: seq<seq<string>>

    function State(): RenderState
      reads this
    {
      RenderState(elements, currentTable)
    }

    constructor ()
      ensures elements == [] && currentTable == []
    {
      elements := [];
      currentTable := [];
    }

    /** Emits the buffered rows as one table (header = first row) and
        empties the buffer; an empty buffer emits nothing. */
    method FlushTable(key: nat)
      modifies this
      ensures old(currentTable) == [] ==> elements == old(elements)
      ensures old(currentTable) != [] ==>
        elements == old(elements) + [Table(key, old(currentTable)[0], old(currentTable)[1..])]
      ensures currentTable == []
      ensures State() == Flush(old(State()), key)
    {
      if |currentTable| == 0 {
        return;
      }
      var headers := currentTable[0];
      var rows := currentTable[1..];
      elements := elements + [Table(key, headers, rows)];
      currentTable := [];
    }

    /** The body of the `forEach` over the lines. */
    method ProcessLine(line: string, idx: nat)
      modifies this
      ensures State() == Step(old(State()), View(line, idx), idx)
    {
      var trimmed := Trim(line);
      if IsRowCandidate(trimmed) {
        var cells := Cells(line);
        if |cells| > 0 {
          currentTable := currentTable + [cells];
          return;
        }
      } else if |currentTable| > 0 {
        if !Contains(trimmed, "---") {
          FlushTable(idx);
        } else {
          return;
        }
      }
      elements := elements + [Classify(line, idx)];
    }
  }

  lemma {:induction false} RenderLinesPrefix(views: seq<LineView>, more: seq<LineView>, n: nat)
    requires n <= |views|
    ensures RenderLines(views + more, n) == RenderLines(views, n)
  {
    if n > 0 {
      RenderLinesPrefix(views, more, n - 1);
      assert (views + more)[n - 1] == views[n - 1];
    }
  }

  /** `renderContent()`: the loop over the lines, then the final flush. */
  method RenderContent(text: string) returns (blocks: seq<Block>)
    ensures blocks == Render(text)
  {
    var lines := Lines(text);
    var r := new Renderer();
    for idx := 0 to |lines|
      invariant r.State() == RenderLines(Views(lines[..idx]), idx)
    {
      r.ProcessLine(lines[idx], idx);
      ghost var done := Views(lines[..idx]);
      assert lines[..idx + 1][..idx] == lines[..idx];
      assert Views(lines[..idx + 1]) == done + [View(lines[idx], idx)];
      RenderLinesPrefix(done, [View(lines[idx], idx)], idx);
      RenderLinesUnfold(done + [View(lines[idx], idx)], idx + 1);
    }
    assert lines[..|lines|] == lines;
    r.FlushTable(|lines|);
    blocks := r.elements;
  }

  // ---------------------------------------------------------------------
  // No table row is lost or emitted twice

  /** The rows of the table blocks, each table contributing its header and
      then its data rows. */
  function TableRows(blocks: seq<Block>): seq<seq<string>>
    decreases |blocks|
  {
    if |blocks| == 0 then []
    else
      var b := blocks[|blocks| - 1];
      TableRows(blocks[..|blocks| - 1]) + (if b.Table? then [b.header] + b.rows else [])
  }

  /** The row a line adds to the buffer: none, or its cells. */
  function RowOf(line: string): seq<seq<string>> {
    match RowCells(line)
    case Some(c) => [c]
    case None => []
  }

  /** The first `n` parts, concatenated. */
  function Concat(parts: seq<seq<seq<string>>>, n: nat): seq<seq<string>>
    requires n <= |parts|
  {
    if n == 0 then [] else Concat(parts, n - 1) + parts[n - 1]
  }

  /** The cells of every table row of the lines, in order. */
  function AllRows(lines: seq<string>): seq<seq<string>> {
    Concat(seq(|lines|, i requires 0 <= i < |lines| => RowOf(lines[i])), |lines|)
  }

  /** The row a view adds to the buffer. */
  function ViewRow(v: LineView): seq<seq<string>> {
    if v.candidate && |v.cells| > 0 then [v.cells] else []
  }

  /** The rows of the first `n` views. */
  function ViewRows(views: seq<LineView>, n: nat): seq<seq<string>>
    requires n <= |views|
  {
    Concat(seq(|views|, i requires 0 <= i < |views| => ViewRow(views[i])), n)
  }

  /** A line's view adds the same row as the line. */
  lemma ViewRowOf(line: string, idx: nat)
    ensures ViewRow(View(line, idx)) == RowOf(line)
  {
  }

  lemma ViewRowAt(lines: seq<string>, i: nat)
    requires i < |lines|
    ensures ViewRow(Views(lines)[i]) == RowOf(lines[i])
  {
    ViewsAt(lines, i);
    ViewRowOf(lines[i], i);
  }

  lemma ViewRowsOfLines(lines: seq<string>)
    ensures ViewRows(Views(lines), |lines|) == AllRows(lines)
  {
    var vs := Views(lines);
    ViewRowsAgree(lines);
    assert seq(|vs|, i requires 0 <= i < |vs| => ViewRow(vs[i]))
        == seq(|lines|, i requires 0 <= i < |lines| => RowOf(lines[i]));
  }

  lemma ViewRowsAgree(lines: seq<string>)
    ensures forall i :: 0 <= i < |lines| ==> ViewRow(Views(lines)[i]) == RowOf(lines[i])
  {
    forall i | 0 <= i < |lines|
      ensures ViewRow(Views(lines)[i]) == RowOf(lines[i])
    {
      ViewRowAt(lines, i);
    }
  }

  lemma TableRowsAppend(blocks: seq<Block>, b: Block)
    ensures TableRows(blocks + [b]) == TableRows(blocks) + (if b.Table? then [b.header] + b.rows else [])
  {
    assert (blocks + [b])[..|blocks|] == blocks;
  }

  lemma TableRowsFlush(st: RenderState, key: nat)
    ensures TableRows(Flush(st, key).blocks) + Flush(st, key).table == TableRows(st.blocks) + st.table
  {
    if |st.table| > 0 {
      TableRowsAppend(st.blocks, Table(key, st.table[0], st.table[1..]));
      assert [st.table[0]] + st.table[1..] == st.table;
    }
  }

  lemma StepKeepsRows(st: RenderState, v: LineView, idx: nat)
    requires !v.block.Table?
    ensures TableRows(Step(st, v, idx).blocks) + Step(st, v, idx).table
         == TableRows(st.blocks) + st.table + ViewRow(v)
  {
    if v.candidate && |v.cells| > 0 {
    } else if v.candidate || |st.table| == 0 {
      TableRowsAppend(st.blocks, v.block);
    } else if !v.rule {
      TableRowsFlush(st, idx);
      TableRowsAppend(Flush(st, idx).blocks, v.block);
    }
  }

  /** Every view's block is the line's own block: never a table, keyed by
      the line's index. */
  predicate WellKeyed(views: seq<LineView>) {
    forall i :: 0 <= i < |views| ==> !views[i].block.Table? && views[i].block.key == i
  }

  lemma ViewsWellKeyed(lines: seq<string>)
    ensures WellKeyed(Views(lines))
  {
    forall i | 0 <= i < |lines|
      ensures !Views(lines)[i].block.Table? && Views(lines)[i].block.key == i
    {
      ViewsAt(lines, i);
    }
  }

  lemma {:induction false} RenderLinesKeepsRows(views: seq<LineView>, n: nat)
    requires n <= |views| && WellKeyed(views)
    ensures TableRows(RenderLines(views, n).blocks) + RenderLines(views, n).table == ViewRows(views, n)
  {
    if n > 0 {
      var m: nat := n - 1;
      RenderLinesKeepsRows(views, m);
      StepKeepsRows(RenderLines(views, m), views[m], m);
      RenderLinesUnfold(views, n);
      assert ViewRows(views, n) == ViewRows(views, m) + ViewRow(views[m]);
    }
  }

  /** Every table row of the text ends up in exactly one table block, in
      the order of the lines, and nothing else does. */
  lemma NoTableRowLost(text: string)
    ensures TableRows(Render(text)) == AllRows(Lines(text))
  {
    var lines := Lines(text);
    ViewsWellKeyed(lines);
    RenderLinesKeepsRows(Views(lines), |lines|);
    ViewRowsOfLines(lines);
    TableRowsFlush(RenderLines(Views(lines), |lines|), |lines|);
  }

  // ---------------------------------------------------------------------
  // Blocks come out in line order

  /** `a` is emitted before `b`: from an earlier line, or a table flushed by
      the line whose own block follows it. */
  predicate Precedes(a: Block, b: Block) {
    a.key < b.key || (a.key == b.key && a.Table? && !b.Table?)
  }

  predicate Ordered(blocks: seq<Block>) {
    forall i, j :: 0 <= i < j < |blocks| ==> Precedes(blocks[i], blocks[j])
  }

  lemma AppendOrdered(blocks: seq<Block>, b: Block)
    requires Ordered(blocks) && forall i :: 0 <= i < |blocks| ==> Precedes(blocks[i], b)
    ensures Ordered(blocks + [b])
  {
  }

  predicate KeysBelow(blocks: seq<Block>, n: nat) {
    forall i :: 0 <= i < |blocks| ==> blocks[i].key < n
  }

  lemma StepOrdered(st: RenderState, v: LineView, idx: nat)
    requires Ordered(st.blocks) && KeysBelow(st.blocks, idx)
    requires !v.block.Table? && v.block.key == idx
    ensures Ordered(Step(st, v, idx).blocks) && KeysBelow(Step(st, v, idx).blocks, idx + 1)
  {
    if v.candidate && |v.cells| > 0 {
    } else if v.candidate || |st.table| == 0 {
      AppendOrdered(st.blocks, v.block);
    } else if !v.rule {
      var f := Flush(st, idx).blocks;
      var tb := Table(idx, st.table[0], st.table[1..]);
      AppendOrdered(st.blocks, tb);
      assert f == st.blocks + [tb];
      AppendOrdered(f, v.block);
    }
  }

  lemma {:induction false} RenderLinesOrdered(views: seq<LineView>, n: nat)
    requires n <= |views| && WellKeyed(views)
    ensures Ordered(RenderLines(views, n).blocks) && KeysBelow(RenderLines(views, n).blocks, n)
  {
    if n > 0 {
      var m: nat := n - 1;
      RenderLinesOrdered(views, m);
      StepOrdered(RenderLines(views, m), views[m], m);
      RenderLinesUnfold(views, n);
    }
  }

  /** Blocks follow the lines that produced them; a line yields at most one
      block of its own, and a table comes just before the block of the line
      that closed it (or last, for a table still open at the end). */
  lemma BlocksInLineOrder(text: string)
    ensures Ordered(Render(text))
    ensures forall i, j :: 0 <= i < j < |Render(text)| && !Render(text)[i].Table? && !Render(text)[j].Table?
              ==> Render(text)[i].key < Render(text)[j].key
    ensures forall i :: 0 <= i < |Render(text)| ==>
              Render(text)[i].key <= |Lines(text)|
              && (!Render(text)[i].Table? ==> Render(text)[i].key < |Lines(text)|)
  {
    var lines := Lines(text);
    var st := RenderLines(Views(lines), |lines|);
    ViewsWellKeyed(lines);
    RenderLinesOrdered(Views(lines), |lines|);
    if |st.table| > 0 {
      AppendOrdered(st.blocks, Table(|lines|, st.table[0], st.table[1..]));
    }
  }

  /** Every table is followed at once by the block of a line with its key:
      the line that flushed it. */
  predicate TablesClosed(blocks: seq<Block>) {
    forall j :: 0 <= j < |blocks| && blocks[j].Table? ==>
      j + 1 < |blocks| && !blocks[j + 1].Table? && blocks[j + 1].key == blocks[j].key
  }

  lemma AppendClosed(blocks: seq<Block>, b: Block)
    requires TablesClosed(blocks) && !b.Table?
    ensures TablesClosed(blocks + [b])
  {
  }

  lemma AppendTableClosed(blocks: seq<Block>, t: Block, b: Block)
    requires TablesClosed(blocks) && t.Table? && !b.Table? && b.key == t.key
    ensures TablesClosed(blocks + [t, b])
  {
  }

  lemma StepClosed(st: RenderState, v: LineView, idx: nat)
    requires TablesClosed(st.blocks) && !v.block.Table? && v.block.key == idx
    ensures TablesClosed(Step(st, v, idx).blocks)
  {
    if v.candidate && |v.cells| > 0 {
    } else if v.candidate || |st.table| == 0 {
      AppendClosed(st.blocks, v.block);
    } else if !v.rule {
      var tb := Table(idx, st.table[0], st.table[1..]);
      AppendTableClosed(st.blocks, tb, v.block);
      assert Flush(st, idx).blocks + [v.block] == st.blocks + [tb, v.block];
    }
  }

  lemma {:induction false} RenderLinesClosed(views: seq<LineView>, n: nat)
    requires n <= |views| && WellKeyed(views)
    ensures TablesClosed(RenderLines(views, n).blocks)
  {
    if n > 0 {
      var m: nat := n - 1;
      RenderLinesClosed(views, m);
      StepClosed(RenderLines(views, m), views[m], m);
      RenderLinesUnfold(views, n);
    }
  }

  /** A table flushed by a line is followed at once by that line's own
      block; the table the final flush emits is the last block. */
  lemma TablesCloseAtTheirLine(text: string)
    ensures forall j :: 0 <= j < |Render(text)| && Render(text)[j].Table? && Render(text)[j].key < |Lines(text)| ==>
              j + 1 < |Render(text)| && !Render(text)[j + 1].Table? && Render(text)[j + 1].key == Render(text)[j].key
    ensures forall j :: 0 <= j < |Render(text)| && Render(text)[j].Table? && Render(text)[j].key == |Lines(text)| ==>
              j == |Render(text)| - 1
  {
    var lines := Lines(text);
    var st := RenderLines(Views(lines), |lines|);
    ViewsWellKeyed(lines);
    RenderLinesOrdered(Views(lines), |lines|);
    RenderLinesClosed(Views(lines), |lines|);
  }

  // ---------------------------------------------------------------------
  // Text without tables

  lemma StepWithoutRow(st: RenderState, v: LineView, idx: nat)
    requires st.table == [] && ViewRow(v) == []
    ensures Step(st, v, idx) == RenderState(st.blocks + [v.block], [])
  {
  }

  /** None of the first `n` views is a table row. */
  predicate NoRowBefore(views: seq<LineView>, n: nat)
    requires n <= |views|
  {
    n == 0 || (ViewRow(views[n - 1]) == [] && NoRowBefore(views, n - 1))
  }

  lemma {:induction false} NoRowBeforeFromAll(views: seq<LineView>, n: nat)
    requires n <= |views|
    requires forall k :: 0 <= k < |views| ==> ViewRow(views[k]) == []
    ensures NoRowBefore(views, n)
  {
    if n > 0 {
      NoRowBeforeFromAll(views, n - 1);
    }
  }

  lemma {:induction false} RenderLinesWithoutRows(views: seq<LineView>, n: nat)
    requires n <= |views| && NoRowBefore(views, n)
    ensures RenderLines(views, n).table == []
    ensures |RenderLines(views, n).blocks| == n
    ensures forall k :: 0 <= k < n ==> RenderLines(views, n).blocks[k] == views[k].block
  {
    if n > 0 {
      var m: nat := n - 1;
      RenderLinesWithoutRows(views, m);
      StepWithoutRow(RenderLines(views, m), views[m], m);
      RenderLinesUnfold(views, n);
    }
  }

  /** With no table row, every line becomes exactly its own block, in order. */
  lemma TableFreeText(text: string)
    requires forall k :: 0 <= k < |Lines(text)| ==> RowCells(Lines(text)[k]).None?
    ensures |Render(text)| == |Lines(text)|
    ensures forall k :: 0 <= k < |Lines(text)| ==> Render(text)[k] == Classify(Lines(text)[k], k)
  {
    var lines := Lines(text);
    var vs := Views(lines);
    forall k | 0 <= k < |lines|
      ensures ViewRow(vs[k]) == []
    {
      ViewsAt(lines, k);
      ViewRowOf(lines[k], k);
    }
    NoRowBeforeFromAll(vs, |lines|);
    RenderLinesWithoutRows(vs, |lines|);
    forall k | 0 <= k < |lines|
      ensures Render(text)[k] == Classify(lines[k], k)
    {
      ViewsAt(lines, k);
    }
  }

  /** Plain prose: one paragraph per non-blank line and one spacer per
      blank line, in the original order. */
  lemma PlainProse(text: string)
    requires forall k :: 0 <= k < |Lines(text)| ==>
      var t := Trim(Lines(text)[k]);
      '|' !in t && !StartsWith(t, "# ") && !StartsWith(t, "## ") && !StartsWith(t, "### ")
      && !StartsWith(t, "> ") && !StartsWith(t, "- ") && !StartsWith(t, "* ")
    ensures |Render(text)| == |Lines(text)|
    ensures forall k :: 0 <= k < |Lines(text)| ==>
      Render(text)[k] == if AllWhitespace(Lines(text)[k]) then Spacer(k) else Paragraph(k, Lines(text)[k])
  {
    TableFreeText(text);
    forall k | 0 <= k < |Lines(text)| {
      ClassifyCases(Lines(text)[k], k);
    }
  }

  // ---------------------------------------------------------------------
  // The mobile card of a table row

  /** One (label, content) pair per header cell; a missing or blank cell of
      a short row shows `-`, and cells beyond the header are not shown. */
  function MobileCard(header: seq<string>, row: seq<string>): (card: seq<(string, seq<Span>)>)
    ensures |card| == |header|
    ensures forall ci :: 0 <= ci < |header| ==> card[ci].0 == Trim(header[ci])
    ensures forall ci :: 0 <= ci < |header| && (ci >= |row| || Trim(row[ci]) == "") ==>
              card[ci].1 == [Plain("-")]
    ensures forall ci :: 0 <= ci < |header| && ci < |row| && Trim(row[ci]) != "" ==>
              card[ci].1 == FormatText(Trim(row[ci]))
    ensures forall ci :: 0 <= ci < |header| && ci < |row| && Trim(row[ci]) != "" ==>
              Join(Texts(card[ci].1), "**") == Trim(row[ci])
  {
    NoStarNoBold("-");
    seq(|header|, ci requires 0 <= ci < |header| =>
      (Trim(header[ci]), FormatText(if ci < |row| && Trim(row[ci]) != "" then Trim(row[ci]) else "-")))
  }

  // ---------------------------------------------------------------------
  // Worked examples

  lemma HeadingExample()
    ensures Classify("## Título", 0) == Heading(0, 2, "Título")
  {
    var s := "## Título";
    TrimOfTrimmed(s);
    ClassifyCases(s, 0);
    assert s[..3] == "## ";
    assert s[..4][2] == ' ';
    assert s[3..] == "Título";
  }

  /** A `- ` line whose text starts with no marker character and ends
      with no whitespace is a bullet of exactly that text. */
  lemma BulletLine(s: string, text: string, key: nat)
    requires s == ['-', ' '] + text && text != []
    requires !IsBulletMarker(text[0]) && !IsWhitespace(text[|text| - 1])
    ensures Classify(s, key) == Bullet(key, text)
  {
    assert s[0] == '-' && s[|s| - 1] == text[|text| - 1];
    TrimOfTrimmed(s);
    assert StartsWith(s, "- ");
    assert s[1..][1..] == text && s[1..][0] == ' ';
    assert StripBulletMarkers(s[1..][1..]) == text;
    assert StripBulletMarkers(s) == text;
  }

  /** The list marker and the space after it are dropped. */
  lemma BulletExample(s: string)
    requires s == "- item um"
    ensures Classify(s, 4) == Bullet(4, "item um")
  {
    var text := s[2..];
    assert text == "item um";
    BulletLine(s, text, 4);
  }

  /** `|a|b|` splits on `|` into the empty edge pieces and `a`, `b`. */
  lemma PipedSplit(line: string, a: string, b: string)
    requires '|' !in a && '|' !in b && line == "|" + a + "|" + b + "|"
    ensures Split(line, "|") == ["", a, b, ""]
  {
    assert line == [] + ['|'] + (a + ['|'] + (b + ['|'] + []));
    SplitAtFirst([], '|', a + ['|'] + (b + ['|'] + []));
    SplitAtFirst(a, '|', b + ['|'] + []);
    SplitAtFirst(b, '|', []);
    SplitWithoutSeparatorStart([], "|");
  }

  /** A two-cell row written between pipes keeps the empty edge cells. */
  lemma PipedRow(line: string, a: string, b: string)
    requires '|' !in a && '|' !in b && line == "|" + a + "|" + b + "|"
    ensures RowCells(line) == Some(["", a, b, ""])
  {
    assert line[0] == '|' && line[|line| - 1] == '|';
    TrimOfTrimmed(line);
    PipedSplit(line, a, b);
    assert Bracketed(line);
  }

  lemma ThreeLines(l1: string, l2: string, l3: string)
    requires '\n' !in l1 && '\n' !in l2 && '\n' !in l3
    ensures Lines(l1 + "\n" + l2 + "\n" + l3) == [l1, l2, l3]
  {
    assert l1 + "\n" + l2 + "\n" + l3 == l1 + ['\n'] + (l2 + ['\n'] + l3);
    SplitAtFirst(l1, '\n', l2 + ['\n'] + l3);
    SplitAtFirst(l2, '\n', l3);
    SplitWithoutSeparatorStart(l3, "\n");
  }

  /** Three consecutive row lines make one table, flushed after the loop. */
  lemma ThreeRowTable(views: seq<LineView>, c1: seq<string>, c2: seq<string>, c3: seq<string>)
    requires |views| == 3
    requires ViewRow(views[0]) == [c1] && ViewRow(views[1]) == [c2] && ViewRow(views[2]) == [c3]
    ensures Flush(RenderLines(views, 3), 3).blocks == [Table(3, c1, [c2, c3])]
  {
    RenderLinesUnfold(views, 1);
    assert RenderLines(views, 1) == RenderState([], [c1]);
    RenderLinesUnfold(views, 2);
    assert RenderLines(views, 2) == RenderState([], [c1, c2]);
    RenderLinesUnfold(views, 3);
    assert RenderLines(views, 3) == RenderState([], [c1, c2, c3]);
  }

  lemma RowLineView(lines: seq<string>, i: nat, c: seq<string>)
    requires i < |lines| && RowCells(lines[i]) == Some(c)
    ensures ViewRow(Views(lines)[i]) == [c]
  {
    ViewsAt(lines, i);
  }

  /** Three lines of two piped cells each make one table. */
  lemma RenderPipedTable(text: string, l1: string, l2: string, l3: string,
                         a1: string, b1: string, a2: string, b2: string, a3: string, b3: string)
    requires Lines(text) == [l1, l2, l3]
    requires '|' !in a1 + b1 + a2 + b2 + a3 + b3
    requires l1 == "|" + a1 + "|" + b1 + "|" && l2 == "|" + a2 + "|" + b2 + "|" && l3 == "|" + a3 + "|" + b3 + "|"
    ensures Render(text) == [Table(3, ["", a1, b1, ""], [["", a2, b2, ""], ["", a3, b3, ""]])]
  {
    var lines := [l1, l2, l3];
    PipedRow(l1, a1, b1);
    RowLineView(lines, 0, ["", a1, b1, ""]);
    PipedRow(l2, a2, b2);
    RowLineView(lines, 1, ["", a2, b2, ""]);
    PipedRow(l3, a3, b3);
    RowLineView(lines, 2, ["", a3, b3, ""]);
    ThreeRowTable(Views(lines), ["", a1, b1, ""], ["", a2, b2, ""], ["", a3, b3, ""]);
  }

  /** Three piped lines, the middle one a `---` rule, make one table whose
      header and rows carry the empty edge cells, and the rule line is a
      data row. */
  lemma PipedTableExample(text: string, l1: string, l2: string, l3: string)
    requires l1 == "| A | B |" && l2 == "| --- | --- |" && l3 == "| 1 | 2 |"
    requires text == l1 + "\n" + l2 + "\n" + l3
    ensures Render(text)
         == [Table(3, ["", " A ", " B ", ""], [["", " --- ", " --- ", ""], ["", " 1 ", " 2 ", ""]])]
  {
    ThreeLines(l1, l2, l3);
    RenderPipedTable(text, l1, l2, l3, " A ", " B ", " --- ", " --- ", " 1 ", " 2 ");
  }

  /** `|a|` splits on `|` into the empty edge pieces and `a`. */
  lemma OneCellSplit(line: string, a: string)
    requires '|' !in a && line == "|" + a + "|"
    ensures Split(line, "|") == ["", a, ""]
  {
    assert line == [] + ['|'] + (a + ['|'] + []);
    SplitAtFirst([], '|', a + ['|'] + []);
    SplitAtFirst(a, '|', []);
    SplitWithoutSeparatorStart([], "|");
  }

  lemma OneCellRow(line: string, a: string)
    requires '|' !in a && line == "|" + a + "|"
    ensures RowCells(line) == Some(["", a, ""])
  {
    assert line[0] == '|' && line[|line| - 1] == '|';
    TrimOfTrimmed(line);
    OneCellSplit(line, a);
    assert Bracketed(line);
  }

  lemma RowRuleOther(lines: seq<string>, c: seq<string>)
    requires |lines| == 3 && RowCells(lines[0]) == Some(c)
    requires !IsRowCandidate(Trim(lines[1])) && Contains(Trim(lines[1]), "---")
    requires !IsRowCandidate(Trim(lines[2])) && !Contains(Trim(lines[2]), "---")
    ensures Flush(RenderLines(Views(lines), 3), 3).blocks == [Table(2, c, []), Classify(lines[2], 2)]
  {
    var vs := Views(lines);
    ViewsAt(lines, 0);
    ViewsAt(lines, 1);
    ViewsAt(lines, 2);
    RenderLinesUnfold(vs, 1);
    assert RenderLines(vs, 1) == RenderState([], [c]);
    RenderLinesUnfold(vs, 2);
    StepCases(RenderLines(vs, 1), lines[1], 1);
    var st := RenderLines(vs, 2);
    assert st == RenderState([], [c]);
    RenderLinesUnfold(vs, 3);
    StepCases(st, lines[2], 2);
    assert [c][1..] == [];
    var last := RenderLines(vs, 3);
    assert last == RenderState([Table(2, c, []), Classify(lines[2], 2)], []);
    assert Flush(last, 3) == last;
  }

  lemma FimIsParagraph(line: string)
    requires line == "fim"
    ensures !IsRowCandidate(Trim(line)) && !Contains(Trim(line), "---")
    ensures Classify(line, 2) == Paragraph(2, line)
  {
    TrimOfTrimmed(line);
    assert '|' !in line;
    assert !Contains(line, "---");
    ClassifyCases(line, 2);
    assert line[..2] != "# " && line[..2] != "> " && line[..2] != "- " && line[..2] != "* ";
  }

  lemma RuleIsSkipped(line: string)
    requires line == "---"
    ensures !IsRowCandidate(Trim(line)) && Contains(Trim(line), "---")
  {
    TrimOfTrimmed(line);
    assert StartsWith(line, "---");
  }

  /** While a table is open a `---` line is skipped; the next plain line
      flushes the table under its own index and follows it. */
  lemma RuleLineSkippedExample(l1: string, l2: string, l3: string)
    requires l1 == "| a |" && l2 == "---" && l3 == "fim"
    ensures Render(l1 + "\n" + l2 + "\n" + l3) == [Table(2, ["", " a ", ""], []), Paragraph(2, "fim")]
  {
    ThreeLines(l1, l2, l3);
    OneCellRow(l1, " a ");
    RuleIsSkipped(l2);
    FimIsParagraph(l3);
    RowRuleOther([l1, l2, l3], ["", " a ", ""]);
  }
}
