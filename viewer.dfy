/**
 * The documentation viewer window: the documents it knows, the text
 * widget's content, the anchors and table of contents of the document
 * shown, the back/forward history, the status line and the window title.
 * Every widget insertion is an append to `out`; scrolling a position into
 * view sets `view`; message boxes are recorded in `alerts`.
 */
module Viewer {
  import opened Wrappers
  import opened Text
  import opened Inline
  import opened Blocks
  import opened Anchor
  import opened Render
  import opened Navigation

  /** The status line. */
  datatype Status =
    | Ready
    | Loaded(filename: string)
    | Jumped(key: string)
    | SectionMissing(key: string)
    | ExternalLink(url: string)

  /** A message box shown to the user. */
  datatype Alert = DocumentMissing(name: string) | ExternalNotice(url: string)

  const AppTitle := "BalrogNPC Documentation"

  /** Rendering one more block: what the text, the anchors and the table of contents become. */
  lemma Emitted(done: seq<Block>, b: Block)
    ensures DocSpans(done + [b]) == DocSpans(done) + BlockSpans(b)
    ensures DocLen(done) == |TextOf(DocSpans(done))|
    ensures AnchorsOf(done + [b])
      == if b.Header? then AnchorsOf(done)[MakeAnchorKey(b.text) := DocLen(done)] else AnchorsOf(done)
    ensures TocOf(done + [b])
      == if b.Header? && b.level <= 3 then TocOf(done) + [TocEntry(TocIndent(b.level) + b.text, DocLen(done))]
         else TocOf(done)
  {
    assert (done + [b])[..|done|] == done;
    DocLenIsTextLength(done);
    AnchorsStep(done, b);
  }

  /** The spans of the text from `i` on: those of the run taken there, then those of the rest. */
  lemma TokenizeSpans(text: string, i: nat, base: Option<string>)
    requires i < |text|
    ensures RunSpans(Tokenize(text, i), base)
      == [RunSpan(NextRun(text, i), base)] + RunSpans(Tokenize(text, i + |Source(NextRun(text, i))|), base)
  {
    TokenizeStep(text, i);
    RunSpansCons(Tokenize(text, i), NextRun(text, i), Tokenize(text, i + |Source(NextRun(text, i))|), base);
  }

  /** Taking the run at `i` moves the rest of the text's spans after it. */
  lemma FormattedStep(text: string, i: nat, base: Option<string>, acc: seq<Span>)
    requires i < |text|
    ensures acc + RunSpans(Tokenize(text, i), base)
      == (acc + [RunSpan(NextRun(text, i), base)]) + RunSpans(Tokenize(text, i + |Source(NextRun(text, i))|), base)
    ensures 1 <= |Source(NextRun(text, i))| <= |text| - i
  {
    NextRunFits(text, i);
    TokenizeSpans(text, i, base);
    var rest := RunSpans(Tokenize(text, i + |Source(NextRun(text, i))|), base);
    assert acc + ([RunSpan(NextRun(text, i), base)] + rest) == (acc + [RunSpan(NextRun(text, i), base)]) + rest;
  }

  /** Concatenation regroups freely; the table loop's invariant steps use it. */
  lemma AppendAssoc<T>(a: seq<T>, b: seq<T>, c: seq<T>)
    ensures a + (b + c) == (a + b) + c
  {
  }

  lemma TableSpansSplit(lines: seq<string>)
    requires |lines| >= 2
    ensures TableSpans(lines)
      == HeaderCells(Cells(lines[0]), 0) + [Untagged("\n"), TableRule(Cells(lines[0])), Untagged("\n")]
         + BodyRows(lines, 2) + [Untagged("\n")]
  {
  }

  /** The blocks still to come from line `i` on follow those already rendered. */
  lemma ParseAdvance(infos: seq<LineInfo>, i: nat, st: Mode, done: seq<Block>)
    requires i < |infos|
    ensures Step(infos, i, st).emit == [] ==>
      done + ParseFrom(infos, i, st) == done + ParseFrom(infos, Step(infos, i, st).next, Step(infos, i, st).mode)
    ensures Step(infos, i, st).emit != [] ==>
      done + ParseFrom(infos, i, st)
      == (done + Step(infos, i, st).emit) + ParseFrom(infos, Step(infos, i, st).next, Step(infos, i, st).mode)
  {
    ParseStep(infos, i, st);
    var o := Step(infos, i, st);
    assert done + (o.emit + ParseFrom(infos, o.next, o.mode)) == (done + o.emit) + ParseFrom(infos, o.next, o.mode);
    if o.emit == [] {
      assert o.emit + ParseFrom(infos, o.next, o.mode) == ParseFrom(infos, o.next, o.mode);
    }
  }

  /**
   * The run at position `i` of `_insert_formatted_text`: link, inline
   * code, bold, italic and checkbox are tried in that order, and the first
   * that matches is taken; otherwise one plain character.
   */
  method TakeRun(text: string, i: nat) returns (r: Run)
    requires i < |text|
    ensures r == NextRun(text, i)
  {
    TryStep(text, i, 0);
    var link := MatchLink(text, i);
    if link.Some? {
      return link.value;
    }
    TryStep(text, i, 1);
    var code := MatchCode(text, i);
    if code.Some? {
      return code.value;
    }
    TryStep(text, i, 2);
    var bold := MatchBold(text, i);
    if bold.Some? {
      return bold.value;
    }
    TryStep(text, i, 3);
    var italic := MatchItalic(text, i);
    if italic.Some? {
      return italic.value;
    }
    TryStep(text, i, 4);
    var box := MatchCheckbox(text, i);
    if box.Some? {
      return box.value;
    }
    TryLast(text, i);
    return Plain(text[i]);
  }


  class MarkdownViewer {
    /** The documents found in the docs directory, by name. */
    const docs: map<string, DocInfo>
    var history: seq<string>
    var historyIndex: int
    var currentDoc: Option<string>
    /** The text widget's content. */
    var out: seq<Span>
    /** Anchor key to the position of its header. */
    var anchors: map<string, nat>
    var toc: seq<TocEntry>
    /** The position last scrolled into view. */
    var view: nat
    var status: Status
    var title: string
    var backEnabled: bool
    var forwardEnabled: bool
    var alerts: seq<Alert>

    ghost function Hist(): History
      reads this`history, this`historyIndex
    {
      History(history, historyIndex)
    }

    /** The widget shows what rendering `content` produces. */
    ghost predicate Shows(content: string)
      reads this`out, this`anchors, this`toc
    {
      Displays(out, anchors, toc, content)
    }

    /** The history is well formed and holds only known documents; the shown document is known. */
    ghost predicate HistoryOk()
      reads this`history, this`historyIndex, this`currentDoc
    {
      ValidHistory(Hist())
      && (forall k :: 0 <= k < |history| ==> history[k] in docs)
      && (currentDoc.Some? ==> currentDoc.value in docs)
    }

    /** The buttons reflect whether back and forward are possible. */
    ghost predicate ButtonsOk()
      reads this`history, this`historyIndex, this`backEnabled, this`forwardEnabled
    {
      backEnabled == CanGoBack(Hist()) && forwardEnabled == CanGoForward(Hist())
    }

    ghost predicate Valid()
      reads this`history, this`historyIndex, this`currentDoc, this`backEnabled, this`forwardEnabled
      reads this`out, this`anchors, this`toc
    {
      HistoryOk() && ButtonsOk()
      && (currentDoc.Some? ==> Shows(docs[currentDoc.value].content))
      && (currentDoc.None? ==> out == [] && anchors == map[] && toc == [])
    }

    /**
     * `__init__`: the window starts with the scanned catalogue, no history
     * and the application title, then `_load_default_document` opens
     * `INDEX`, else `README`, else the first name in sorted order; an
     * empty catalogue leaves the window empty.
     */
    constructor(docs: map<string, DocInfo>)
      ensures this.docs == docs && alerts == [] && !backEnabled && !forwardEnabled && Valid()
      ensures docs == map[] ==>
        Hist() == NoHistory && currentDoc == None && out == [] && anchors == map[] && toc == []
        && view == 0 && status == Ready && title == AppTitle
      ensures docs != map[] ==>
        currentDoc.Some? && DefaultChoice(docs.Keys, currentDoc.value)
        && Hist() == History([currentDoc.value], 0) && Shows(docs[currentDoc.value].content)
        && title == AppTitle + " - " + docs[currentDoc.value].title
        && view == 0 && status == Loaded(docs[currentDoc.value].filename)
    {
      this.docs := docs;
      history := [];
      historyIndex := -1;
      currentDoc := None;
      out := [];
      anchors := map[];
      toc := [];
      view := 0;
      status := Ready;
      title := AppTitle;
      backEnabled := false;
      forwardEnabled := false;
      alerts := [];
      new;
      LoadDefaultDocument();
    }

    /** `_load_default_document` */
    method LoadDefaultDocument()
      requires Valid()
      modifies this
      ensures Valid()
      ensures docs == map[] ==> unchanged(this)
      ensures docs != map[] ==>
        currentDoc.Some? && DefaultChoice(docs.Keys, currentDoc.value)
        && Followed(OpenDoc(currentDoc.value, None))
    {
      if docs.Keys != {} {
        var d := DefaultDocument(docs.Keys);
        LoadDocument(d, true, None);
      }
    }

    /** `_update_nav_buttons` */
    method UpdateNavButtons()
      modifies this`backEnabled, this`forwardEnabled
      ensures ButtonsOk()
    {
      backEnabled := historyIndex > 0;
      forwardEnabled := historyIndex < |history| - 1;
    }

    /** `_insert_formatted_text`: the recognisers are tried in order at each position. */
    method InsertFormattedText(text: string, base: Option<string>)
      modifies this`out
      ensures out == old(out) + Formatted(text, base)
    {
      var i := 0;
      while i < |text|
        invariant i <= |text|
        invariant old(out) + Formatted(text, base) == out + RunSpans(Tokenize(text, i), base)
        decreases |text| - i
      {
        FormattedStep(text, i, base, out);
        i := InsertNextRun(text, i, base);
      }
    }

    /** One pass of the loop of `_insert_formatted_text`: the run at `i` is inserted and `i` moves past it. */
    method InsertNextRun(text: string, i: nat, base: Option<string>) returns (next: nat)
      requires i < |text|
      modifies this`out
      ensures out == old(out) + [RunSpan(NextRun(text, i), base)]
      ensures next == i + |Source(NextRun(text, i))|
    {
      var r := TakeRun(text, i);
      out := out + [RunSpan(r, base)];
      next := i + |Source(r)|;
    }

    /** `_insert_header` */
    method InsertHeader(level: nat, text: string)
      modifies this`out
      ensures out == old(out) + HeaderSpans(level, text)
    {
      ghost var before := out;
      InsertFormattedText(text, Some(HeaderTag(level)));
      out := out + [Untagged("\n\n")];
      assert out == before + (Formatted(text, Some(HeaderTag(level))) + [Untagged("\n\n")]);
    }

    /** `_insert_paragraph` */
    method InsertParagraph(line: string)
      modifies this`out
      ensures out == old(out) + ParagraphSpans(line)
    {
      ghost var before := out;
      InsertFormattedText(line, None);
      out := out + [Untagged("\n")];
      assert out == before + (Formatted(line, None) + [Untagged("\n")]);
    }

    /** `_insert_code_block` */
    method InsertCodeBlock(code: string)
      modifies this`out
      ensures out == old(out) + CodeSpans(code)
    {
      ghost var before := out;
      var text := WithNewline(code);
      out := out + [Untagged(text)];
      out := out + [Untagged("\n")];
      assert out == before + [Untagged(text), Untagged("\n")];
    }

    /** `_insert_list_item` */
    method InsertListItem(text: string, indent: nat)
      modifies this`out
      ensures out == old(out) + ItemSpans(indent, text)
    {
      ghost var before := out;
      out := out + [Untagged(Repeat(' ', 2 * (indent / 2)) + "• ")];
      InsertFormattedText(text, Some("list"));
      out := out + [Untagged("\n")];
      assert out == before + ([Untagged(Bullet(indent))] + Formatted(text, Some("list")) + [Untagged("\n")]);
    }

    /** `_insert_blockquote` */
    method InsertBlockquote(text: string)
      modifies this`out
      ensures out == old(out) + QuoteSpans(text)
    {
      ghost var before := out;
      out := out + [Untagged("  ")];
      InsertFormattedText(text, Some("blockquote"));
      out := out + [Untagged("\n")];
      assert out == before + ([Untagged("  ")] + Formatted(text, Some("blockquote")) + [Untagged("\n")]);
    }

    /** `_insert_hr` */
    method InsertHr()
      modifies this`out
      ensures out == old(out) + RuleSpans()
    {
      out := out + [Span(Repeat('─', 80) + "\n\n", ["hr"], None)];
    }

    /** The header row of `_insert_table`: each cell padded, ` | ` between cells. */
    method InsertHeaderRow(header: seq<string>)
      modifies this`out
      ensures out == old(out) + HeaderCells(header, 0)
    {
      var i := 0;
      while i < |header|
        invariant i <= |header|
        invariant old(out) + HeaderCells(header, 0) == out + HeaderCells(header, i)
        decreases |header| - i
      {
        ghost var before := out;
        var cell := [Span(LJust(header[i], 20), ["table_header"], None)];
        var sep := if i < |header| - 1 then [Span(" | ", ["table_header"], None)] else [];
        assert HeaderCells(header, i) == cell + sep + HeaderCells(header, i + 1);
        out := out + [Span(LJust(header[i], 20), ["table_header"], None)];
        if i < |header| - 1 {
          out := out + [Span(" | ", ["table_header"], None)];
        }
        assert out == before + (cell + sep);
        i := i + 1;
      }
    }

    /** A body row of `_insert_table`: each cell padded and formatted, ` | ` between cells. */
    method InsertRowCells(cells: seq<string>)
      modifies this`out
      ensures out == old(out) + RowCells(cells, 0)
    {
      var i := 0;
      while i < |cells|
        invariant i <= |cells|
        invariant old(out) + RowCells(cells, 0) == out + RowCells(cells, i)
        decreases |cells| - i
      {
        ghost var before := out;
        var cell := Formatted(LJust(cells[i], 20), Some("table_cell"));
        var sep := if i < |cells| - 1 then [Untagged(" | ")] else [];
        assert RowCells(cells, i) == cell + sep + RowCells(cells, i + 1);
        InsertFormattedText(LJust(cells[i], 20), Some("table_cell"));
        if i < |cells| - 1 {
          out := out + [Untagged(" | ")];
        }
        assert out == before + (cell + sep);
        i := i + 1;
      }
    }

    /** `_insert_table` */
    method InsertTable(lines: seq<string>)
      modifies this`out
      ensures out == old(out) + TableSpans(lines)
    {
      if |lines| < 2 {
        return;
      }
      ghost var start := out;
      var header := Cells(lines[0]);
      InsertHeaderRow(header);
      out := out + [Untagged("\n")];
      out := out + [TableRule(header)];
      out := out + [Untagged("\n")];
      ghost var mid := [Untagged("\n"), TableRule(header), Untagged("\n")];
      assert out == start + HeaderCells(header, 0) + mid;
      ghost var head := out;
      var r := 2;
      while r < |lines|
        invariant 2 <= r <= |lines|
        invariant head + BodyRows(lines, 2) == out + BodyRows(lines, r)
        decreases |lines| - r
      {
        ghost var before := out;
        ghost var row := RowCells(Cells(lines[r]), 0);
        assert BodyRows(lines, r) == row + [Untagged("\n")] + BodyRows(lines, r + 1);
        AppendAssoc(before, row + [Untagged("\n")], BodyRows(lines, r + 1));
        AppendAssoc(before, row, [Untagged("\n")]);
        InsertRowCells(Cells(lines[r]));
        out := out + [Untagged("\n")];
        r := r + 1;
      }
      assert out == head + BodyRows(lines, 2);
      out := out + [Untagged("\n")];
      TableSpansSplit(lines);
      AppendAssoc(start, HeaderCells(header, 0) + mid + BodyRows(lines, 2), [Untagged("\n")]);
      AppendAssoc(start, HeaderCells(header, 0) + mid, BodyRows(lines, 2));
      AppendAssoc(start, HeaderCells(header, 0), mid);
    }

    /** The widget holds the rendering of the blocks `done`. */
    ghost predicate Renders(done: seq<Block>)
      reads this`out, this`anchors, this`toc
    {
      out == DocSpans(done) && anchors == AnchorsOf(done) && toc == TocOf(done)
    }

    /**
     * One completed block of `_render_markdown` inserted: a header first
     * records its table-of-contents entry and its anchor at the current
     * end of the text.
     */
    method EmitBlock(ghost done: seq<Block>, b: Block)
      requires Renders(done)
      modifies this`out, this`anchors, this`toc
      ensures Renders(done + [b])
    {
      Emitted(done, b);
      match b
      case Header(level, text) =>
        var pos := |TextOf(out)|;
        if level <= 3 {
          toc := toc + [TocEntry(TocIndent(level) + text, pos)];
        }
        anchors := anchors[MakeAnchorKey(text) := pos];
        InsertHeader(level, text);
      case Rule => InsertHr();
      case Table(lines) => InsertTable(lines);
      case ListItem(indent, text) => InsertListItem(text, indent);
      case Quote(text) => InsertBlockquote(text);
      case Paragraph(line) => InsertParagraph(line);
      case Blank => out := out + [Untagged("\n")];
      case CodeBlock(code) => InsertCodeBlock(code);
    }

    /**
     * `_render_markdown`: the widget is cleared and the lines are walked
     * once, with the code-block and table state carried from line to line.
     * What the loop does with one line (which branch applies, which block
     * it completes, how the state changes) is `Step`; the widget
     * insertions for a completed block are `EmitBlock`.
     */
    method RenderMarkdown(content: string)
      modifies this`out, this`anchors, this`toc, this`view
      ensures Shows(content) && view == 0
    {
      out := [];
      toc := [];
      anchors := map[];
      var infos := ClassifyAll(Lines(content));
      var i := 0;
      var st := Start;
      ghost var done: seq<Block> := [];
      while i < |infos|
        invariant i <= |infos|
        invariant ParseFrom(infos, 0, Start) == done + ParseFrom(infos, i, st)
        invariant Renders(done)
        decreases |infos| - i, if st.inTable then 1 else 0
      {
        var o := Step(infos, i, st);
        ParseAdvance(infos, i, st, done);
        if o.emit != [] {
          assert o.emit == [o.emit[0]];
          EmitBlock(done, o.emit[0]);
          done := done + o.emit;
        }
        i, st := o.next, o.mode;
      }
      assert done + [] == done;
      view := 0;
    }

    /** `_jump_to_anchor` */
    method JumpToAnchor(anchor: string)
      modifies this`view, this`status
      ensures anchor == [] ==> view == old(view) && status == old(status)
      ensures anchor != [] && MakeAnchorKey(anchor) in anchors ==>
        view == anchors[MakeAnchorKey(anchor)] && status == Jumped(MakeAnchorKey(anchor))
      ensures anchor != [] && MakeAnchorKey(anchor) !in anchors ==>
        view == old(view) && status == SectionMissing(MakeAnchorKey(anchor))
    {
      if anchor == [] {
        return;
      }
      var key := MakeAnchorKey(anchor);
      if key in anchors {
        view := anchors[key];
        status := Jumped(key);
      } else {
        status := SectionMissing(key);
      }
    }

    /**
     * Where a freshly loaded document is scrolled to: the top, with the
     * file name on the status line, unless a non-empty anchor is asked
     * for; then its header if the anchor's key is known, else the top,
     * with the status line saying the section is missing.
     */
    ghost predicate ScrolledTo(anchor: Option<string>, filename: string)
      reads this`view, this`status, this`anchors
    {
      if anchor.None? || anchor.value == [] then view == 0 && status == Loaded(filename)
      else if MakeAnchorKey(anchor.value) in anchors then
        view == anchors[MakeAnchorKey(anchor.value)] && status == Jumped(MakeAnchorKey(anchor.value))
      else view == 0 && status == SectionMissing(MakeAnchorKey(anchor.value))
    }

    /** The history part of `load_document`: entries after the current one are dropped, then `name` is appended. */
    method PushHistory(name: string)
      requires HistoryOk() && name in docs
      modifies this`history, this`historyIndex, this`backEnabled, this`forwardEnabled
      ensures Hist() == Visit(old(Hist()), name) && HistoryOk() && ButtonsOk()
    {
      ghost var h := Visit(Hist(), name);
      history := history[..historyIndex + 1] + [name];
      historyIndex := |history| - 1;
      assert Hist() == h;
      UpdateNavButtons();
    }

    /** The display part of `load_document`: the document is rendered, then scrolled to `anchor`. */
    method ShowDocument(name: string, anchor: Option<string>)
      requires name in docs
      modifies this`currentDoc, this`title, this`status, this`out, this`anchors, this`toc, this`view
      ensures currentDoc == Some(name) && title == AppTitle + " - " + docs[name].title
      ensures Shows(docs[name].content)
      ensures ScrolledTo(anchor, docs[name].filename)
    {
      var info := docs[name];
      currentDoc := Some(name);
      title := AppTitle + " - " + info.title;
      status := Loaded(info.filename);
      RenderMarkdown(info.content);
      if anchor.Some? {
        JumpToAnchor(anchor.value);
      }
    }

    /** `load_document` */
    method LoadDocument(name: string, addToHistory: bool, anchor: Option<string>)
      requires HistoryOk()
      modifies this
      ensures HistoryOk()
      ensures name !in docs ==>
        alerts == old(alerts) + [DocumentMissing(name)]
        && unchanged(this`history, this`historyIndex, this`currentDoc, this`out, this`anchors, this`toc)
        && unchanged(this`view, this`status, this`title, this`backEnabled, this`forwardEnabled)
      ensures name in docs ==>
        Hist() == (if addToHistory then Visit(old(Hist()), name) else old(Hist()))
        && currentDoc == Some(name) && Shows(docs[name].content)
        && title == AppTitle + " - " + docs[name].title && alerts == old(alerts)
      ensures name in docs && addToHistory ==> ButtonsOk()
      ensures !(name in docs && addToHistory) ==> backEnabled == old(backEnabled) && forwardEnabled == old(forwardEnabled)
      ensures name in docs ==> ScrolledTo(anchor, docs[name].filename)
    {
      if name !in docs {
        ReportMissing(name);
      } else {
        OpenDocument(name, addToHistory, anchor);
      }
    }

    /** A name that is not in the catalogue: a message box says so and nothing else changes. */
    method ReportMissing(name: string)
      modifies this`alerts
      ensures alerts == old(alerts) + [DocumentMissing(name)]
    {
      alerts := alerts + [DocumentMissing(name)];
    }

    /** `load_document` for a known document: the history is extended when asked, then the document is shown. */
    method OpenDocument(name: string, addToHistory: bool, anchor: Option<string>)
      requires HistoryOk() && name in docs
      modifies this`history, this`historyIndex, this`backEnabled, this`forwardEnabled
      modifies this`currentDoc, this`title, this`status, this`out, this`anchors, this`toc, this`view
      ensures HistoryOk() && currentDoc == Some(name)
      ensures Hist() == if addToHistory then Visit(old(Hist()), name) else old(Hist())
      ensures addToHistory ==> ButtonsOk() && Valid()
      ensures !addToHistory ==> backEnabled == old(backEnabled) && forwardEnabled == old(forwardEnabled)
      ensures Shows(docs[name].content) && title == AppTitle + " - " + docs[name].title
      ensures ScrolledTo(anchor, docs[name].filename)
    {
      if addToHistory {
        PushHistory(name);
      }
      ShowDocument(name, anchor);
    }

    /** `_go_back` */
    method GoBack()
      requires Valid()
      modifies this
      ensures Valid()
      ensures Hist() == Back(old(Hist())) && alerts == old(alerts)
      ensures CanGoBack(old(Hist())) ==>
        currentDoc == Some(history[historyIndex]) && Shows(docs[history[historyIndex]].content)
        && title == AppTitle + " - " + docs[history[historyIndex]].title
        && view == 0 && status == Loaded(docs[history[historyIndex]].filename)
      ensures !CanGoBack(old(Hist())) ==> unchanged(this)
    {
      if historyIndex > 0 {
        historyIndex := historyIndex - 1;
        LoadDocument(history[historyIndex], false, None);
        UpdateNavButtons();
      }
    }

    /** `_go_forward` */
    method GoForward()
      requires Valid()
      modifies this
      ensures Valid()
      ensures Hist() == Forward(old(Hist())) && alerts == old(alerts)
      ensures CanGoForward(old(Hist())) ==>
        currentDoc == Some(history[historyIndex]) && Shows(docs[history[historyIndex]].content)
        && title == AppTitle + " - " + docs[history[historyIndex]].title
        && view == 0 && status == Loaded(docs[history[historyIndex]].filename)
      ensures !CanGoForward(old(Hist())) ==> unchanged(this)
    {
      if historyIndex < |history| - 1 {
        historyIndex := historyIndex + 1;
        LoadDocument(history[historyIndex], false, None);
        UpdateNavButtons();
      }
    }

    /**
     * What following a classified link does, relative to the state before
     * the click: nothing for `Ignore`; for a document, it is visited,
     * shown and scrolled to the anchor; for a section of the shown
     * document, only the scroll position and the status line change, as
     * `_jump_to_anchor` decides; for an external link, only the status
     * line and the message boxes.
     */
    twostate predicate Followed(act: LinkAction)
      reads this
    {
      match act
      case Ignore => unchanged(this)
      case OpenDoc(name, anchor) =>
        name in docs && old(ValidHistory(Hist())) && Hist() == Visit(old(Hist()), name) && currentDoc == Some(name)
        && Shows(docs[name].content) && title == AppTitle + " - " + docs[name].title
        && ScrolledTo(anchor, docs[name].filename) && alerts == old(alerts)
      case JumpTo(section) =>
        history == old(history) && historyIndex == old(historyIndex) && currentDoc == old(currentDoc)
        && out == old(out) && anchors == old(anchors) && toc == old(toc) && title == old(title)
        && backEnabled == old(backEnabled) && forwardEnabled == old(forwardEnabled) && alerts == old(alerts)
        && (section == [] ==> view == old(view) && status == old(status))
        && (section != [] && MakeAnchorKey(section) in anchors ==>
              view == anchors[MakeAnchorKey(section)] && status == Jumped(MakeAnchorKey(section)))
        && (section != [] && MakeAnchorKey(section) !in anchors ==>
              view == old(view) && status == SectionMissing(MakeAnchorKey(section)))
      case External(url) =>
        history == old(history) && historyIndex == old(historyIndex) && currentDoc == old(currentDoc)
        && out == old(out) && anchors == old(anchors) && toc == old(toc) && title == old(title)
        && backEnabled == old(backEnabled) && forwardEnabled == old(forwardEnabled) && view == old(view)
        && status == ExternalLink(url) && alerts == old(alerts) + [ExternalNotice(url)]
    }

    /** `_on_link_click` */
    method OnLinkClick(url: string)
      requires Valid()
      modifies this
      ensures Valid() && Followed(ClassifyLink(url, old(currentDoc), docs.Keys))
    {
      var act := ClassifyLink(url, currentDoc, docs.Keys);
      Follow(act);
    }

    /** What `_on_link_click` does once the link is classified. */
    method Follow(act: LinkAction)
      requires Valid() && (act.OpenDoc? ==> act.name in docs)
      modifies this
      ensures Valid() && Followed(act)
    {
      match act
      case Ignore =>
      case OpenDoc(name, anchor) =>
        FollowDocument(name, anchor);
      case JumpTo(section) =>
        FollowSection(section);
      case External(u) =>
        NotifyExternal(u);
    }

    /** A link to a known document: it is visited and shown, scrolled to the anchor. */
    method FollowDocument(name: string, anchor: Option<string>)
      requires Valid() && name in docs
      modifies this
      ensures Valid() && Followed(OpenDoc(name, anchor))
    {
      OpenDocument(name, true, anchor);
    }

    /** A link to a section of the shown document: `_jump_to_anchor`. */
    method FollowSection(section: string)
      requires Valid()
      modifies this`view, this`status
      ensures Valid() && Followed(JumpTo(section))
    {
      JumpToAnchor(section);
    }

    /** An external link is reported, not followed: the status line and a message box say so. */
    method NotifyExternal(url: string)
      requires Valid()
      modifies this`status, this`alerts
      ensures Valid() && Followed(External(url))
    {
      status := ExternalLink(url);
      alerts := alerts + [ExternalNotice(url)];
    }

    /**
     * `_on_doc_selected`: a known document picked from the menu is opened
     * at its top and added to the history; anything else changes nothing.
     */
    method OnDocSelected(name: string)
      requires Valid()
      modifies this
      ensures Valid()
      ensures name != [] && name in docs ==>
        Followed(OpenDoc(name, None)) && view == 0 && status == Loaded(docs[name].filename)
      ensures !(name != [] && name in docs) ==> unchanged(this)
    {
      if name != [] && name in docs {
        LoadDocument(name, true, None);
      }
    }

    /** `_on_toc_select` */
    method OnTocSelect(k: nat)
      modifies this`view
      ensures k < |toc| ==> view == toc[k].pos
      ensures k >= |toc| ==> view == old(view)
    {
      if k < |toc| {
        view := toc[k].pos;
      }
    }
  }
}
