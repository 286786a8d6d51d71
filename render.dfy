/**
 * What the viewer puts into its text widget for each block. The widget's
 * content is modelled as the sequence of insertions made at its end, each
 * a span of characters with the tags it was inserted with and, for a
 * link, the target its click handler is bound to. A widget position is a
 * character offset from the start of the document.
 */
module Render {
  import opened Wrappers
  import opened Text
  import opened Inline
  import opened Blocks
  import opened Anchor

  /** One insertion: the characters, the tags they carry, and a link's target. */
  datatype Span = Span(text: string, tags: seq<string>, link: Option<string>)

  function Untagged(s: string): Span { Span(s, [], None) }

  function BaseTags(base: Option<string>): seq<string> {
    if base.Some? then [base.value] else []
  }

  /**
   * How one run is inserted: links, inline code, bold and italic carry
   * their own tag followed by the base tag; a checkbox carries only its
   * own tag (the base tag is not applied); a plain character carries only
   * the base tag.
   */
  function RunSpan(r: Run, base: Option<string>): Span
  {
    match r
    case Link(t, u) => Span(t, ["link"] + BaseTags(base), Some(u))
    case Code(t) => Span(t, ["code_inline"] + BaseTags(base), None)
    case Bold(t, _) => Span(t, ["bold"] + BaseTags(base), None)
    case Italic(t, _) => Span(t, ["italic"] + BaseTags(base), None)
    case Checkbox(b) =>
      if b then Span("☑ ", ["checkbox_checked"], None) else Span("☐ ", ["checkbox_unchecked"], None)
    case Plain(c) => Span([c], BaseTags(base), None)
  }

  /**
   * The tags of a run's span end with the base tag, except for a checkbox,
   * which carries only its own tag; only a link carries a target.
   */
  lemma RunSpanTags(r: Run, base: Option<string>)
    ensures r.Checkbox? ==>
      RunSpan(r, base).tags == [if r.checked then "checkbox_checked" else "checkbox_unchecked"]
    ensures !r.Checkbox? ==> (|BaseTags(base)| <= |RunSpan(r, base).tags|
      && RunSpan(r, base).tags[|RunSpan(r, base).tags| - |BaseTags(base)|..] == BaseTags(base))
    ensures r.Link? <==> RunSpan(r, base).link.Some?
    ensures r.Link? ==> RunSpan(r, base).link.value == r.target
  {
  }

  /** The spans of a sequence of runs, one each. */
  function RunSpans(runs: seq<Run>, base: Option<string>): (spans: seq<Span>)
    ensures |spans| == |runs|
  {
    seq(|runs|, k requires 0 <= k < |runs| => RunSpan(runs[k], base))
  }

  /** Inserting a run ahead of others puts its span ahead of theirs. */
  lemma RunSpansCons(runs: seq<Run>, r: Run, rest: seq<Run>, base: Option<string>)
    requires runs == [r] + rest
    ensures RunSpans(runs, base) == [RunSpan(r, base)] + RunSpans(rest, base)
  {
    var lhs := RunSpans(runs, base);
    var rhs := [RunSpan(r, base)] + RunSpans(rest, base);
    forall k | 0 <= k < |lhs|
      ensures lhs[k] == rhs[k]
    {
      if k > 0 {
        assert runs[k] == rest[k - 1];
      }
    }
  }

  /** `_insert_formatted_text(text, base_tag)` */
  function Formatted(text: string, base: Option<string>): seq<Span>
  {
    RunSpans(Tokenize(text, 0), base)
  }

  /** The characters of a sequence of spans, in order. */
  function TextOf(spans: seq<Span>): string
  {
    if spans == [] then [] else spans[0].text + TextOf(spans[1..])
  }

  lemma {:induction false} TextOfConcat(a: seq<Span>, b: seq<Span>)
    ensures TextOf(a + b) == TextOf(a) + TextOf(b)
  {
    if a == [] {
      assert a + b == b;
    } else {
      assert (a + b)[1..] == a[1..] + b;
      TextOfConcat(a[1..], b);
    }
  }

  lemma {:induction false} TextOfSingles(spans: seq<Span>, t: string)
    requires |spans| == |t| && forall k :: 0 <= k < |t| ==> spans[k].text == [t[k]]
    ensures TextOf(spans) == t
  {
    if t != [] {
      TextOfSingles(spans[1..], t[1..]);
    }
  }

  lemma PlainSpans(runs: seq<Run>, t: string, base: Option<string>)
    requires |runs| == |t| && forall k :: 0 <= k < |t| ==> runs[k] == Plain(t[k])
    ensures TextOf(RunSpans(runs, base)) == t
    ensures forall k :: 0 <= k < |runs| ==> RunSpans(runs, base)[k] == Span([t[k]], BaseTags(base), None)
  {
    TextOfSingles(RunSpans(runs, base), t);
  }

  /**
   * Text without any markup character is inserted as it stands, one
   * character at a time, each carrying exactly the base tag.
   */
  lemma FormattedPlain(text: string, base: Option<string>)
    requires forall j :: 0 <= j < |text| ==> !IsMarkupStart(text[j])
    ensures TextOf(Formatted(text, base)) == text
    ensures forall k :: 0 <= k < |Formatted(text, base)| ==>
      Formatted(text, base)[k].tags == BaseTags(base) && Formatted(text, base)[k].link.None?
  {
    TokenizeNoMarkup(text, 0);
    var spans := RunSpans(Tokenize(text, 0), base);
    assert Formatted(text, base) == spans;
    PlainSpans(Tokenize(text, 0), text, base);
    forall k | 0 <= k < |spans|
      ensures spans[k].tags == BaseTags(base) && spans[k].link.None?
    {
      assert spans[k] == Span([text[k]], BaseTags(base), None);
    }
  }

  /** Every run except a checkbox carries the base tag. */
  lemma BaseTagApplied(text: string, b: string)
    ensures forall k :: 0 <= k < |Formatted(text, Some(b))| ==>
      Tokenize(text, 0)[k].Checkbox? || b in Formatted(text, Some(b))[k].tags
  {
    var spans := Formatted(text, Some(b));
    forall k | 0 <= k < |spans| && !Tokenize(text, 0)[k].Checkbox?
      ensures b in spans[k].tags
    {
      RunSpanTags(Tokenize(text, 0)[k], Some(b));
      var tags := spans[k].tags;
      assert tags[|tags| - 1..] == [b];
      assert tags[|tags| - 1] == b;
    }
  }

  /** The decimal digits of `n`. */
  function NatString(n: nat): (s: string)
    ensures s != [] && forall j :: 0 <= j < |s| ==> IsDigit(s[j])
  {
    if n < 10 then [('0' as int + n) as char]
    else NatString(n / 10) + [('0' as int + n % 10) as char]
  }

  /** The tag of a header of the given level: `h1` ... `h6`. */
  function HeaderTag(level: nat): string { "h" + NatString(level) }

  /** `'  ' * (indent // 2) + '• '` */
  function Bullet(indent: nat): (s: string)
    ensures |s| == 2 * (indent / 2) + 2 && EndsWith(s, "• ")
  {
    Repeat(' ', 2 * (indent / 2)) + "• "
  }

  /** The code as inserted: a newline is added unless it already ends with one. */
  function WithNewline(code: string): (s: string)
    ensures StartsWith(s, code) && EndsWith(s, "\n") && |s| <= |code| + 1
  {
    if EndsWith(code, "\n") then code else code + "\n"
  }

  /** The header row: each cell padded to 20 and ` | ` between cells, all tagged `table_header`. */
  function HeaderCells(cells: seq<string>, i: nat): seq<Span>
    requires i <= |cells|
    decreases |cells| - i
  {
    if i == |cells| then []
    else
      [Span(LJust(cells[i], 20), ["table_header"], None)]
      + (if i < |cells| - 1 then [Span(" | ", ["table_header"], None)] else [])
      + HeaderCells(cells, i + 1)
  }

  /** A body row: each cell padded to 20 and formatted with base tag `table_cell`, untagged ` | ` between. */
  function RowCells(cells: seq<string>, i: nat): seq<Span>
    requires i <= |cells|
    decreases |cells| - i
  {
    if i == |cells| then []
    else
      Formatted(LJust(cells[i], 20), Some("table_cell"))
      + (if i < |cells| - 1 then [Untagged(" | ")] else [])
      + RowCells(cells, i + 1)
  }

  /** The body rows `lines[i..]`, each followed by a newline. */
  function BodyRows(lines: seq<string>, i: nat): seq<Span>
    requires i <= |lines|
    decreases |lines| - i
  {
    if i == |lines| then []
    else RowCells(Cells(lines[i]), 0) + [Untagged("\n")] + BodyRows(lines, i + 1)
  }

  /** The rule under a table's header row: 21 dashes per header cell. */
  function TableRule(header: seq<string>): Span
  {
    Span(Repeat('-', 21 * |header|), ["hr"], None)
  }

  /** `_insert_table(lines)`: nothing for fewer than two lines; the separator row (line 2) is never shown. */
  function TableSpans(lines: seq<string>): seq<Span>
  {
    if |lines| < 2 then []
    else
      var header := Cells(lines[0]);
      HeaderCells(header, 0) + [Untagged("\n"), TableRule(header), Untagged("\n")]
      + BodyRows(lines, 2) + [Untagged("\n")]
  }

  /** Body rows are drawn from their own lines only. */
  lemma {:induction false} BodyRowsAgree(a: seq<string>, b: seq<string>, i: nat)
    requires i <= |a| == |b| && forall k :: i <= k < |a| ==> a[k] == b[k]
    ensures BodyRows(a, i) == BodyRows(b, i)
    decreases |a| - i
  {
    if i < |a| {
      BodyRowsAgree(a, b, i + 1);
    }
  }

  /** What a table shows does not depend on its second line: the separator row is never shown. */
  lemma TableSkipsSeparator(lines: seq<string>, x: string)
    requires |lines| >= 2
    ensures TableSpans(lines[1 := x]) == TableSpans(lines)
  {
    BodyRowsAgree(lines[1 := x], lines, 2);
  }

  /** `|a|b|` splits on bars into an empty piece, `a`, `b` and an empty piece. */
  lemma SplitTwoCells(a: char, b: char)
    requires a != '|' && b != '|'
    ensures SplitBy(['|', a, '|', b, '|'], {'|'}) == [[], [a], [b], []]
  {
    var bar: set<char> := {'|'};
    var e: string := [];
    SplitPiece(e, '|', e, bar);
    assert SplitBy(e, bar) == [e];
    SplitPiece([b], '|', e, bar);
    SplitPiece([a], '|', [b] + ['|'] + e, bar);
    SplitPiece(e, '|', [a] + ['|'] + ([b] + ['|'] + e), bar);
    assert e + ['|'] + ([a] + ['|'] + ([b] + ['|'] + e)) == ['|', a, '|', b, '|'];
  }

  /** The cells of `|a|b|` for single non-space characters `a` and `b`. */
  lemma TwoCells(a: char, b: char)
    requires a != '|' && b != '|' && !IsSpace(a) && !IsSpace(b)
    ensures Cells(['|', a, '|', b, '|']) == [[a], [b]]
  {
    SplitTwoCells(a, b);
    StripUnchanged([a]);
    StripUnchanged([b]);
    var e: string := [];
    StrippedCellsOne(e);
    StrippedCellsOne([a]);
    StrippedCellsOne([b]);
    StrippedCellsAppend([e] + [[a]] + [[b]], [e]);
    StrippedCellsAppend([e] + [[a]], [[b]]);
    StrippedCellsAppend([e], [[a]]);
    assert [e] + [[a]] + [[b]] + [e] == [[], [a], [b], []];
  }

  /** A three-line table shows its first line's cells, the rule, and its third line's cells as the one body row. */
  lemma ThreeLineTable(h: string, sep: string, r: string)
    ensures TableSpans([h, sep, r])
      == HeaderCells(Cells(h), 0) + [Untagged("\n"), TableRule(Cells(h)), Untagged("\n")]
         + RowCells(Cells(r), 0) + [Untagged("\n")] + [Untagged("\n")]
  {
    assert BodyRows([h, sep, r], 3) == [];
  }

  /**
   * The table `|A|B|`, `|-|-|`, `|1|2|` shows the header cells `A` and `B`,
   * the rule, and the one body row `1`, `2`.
   */
  lemma SimpleTable()
    ensures TableSpans(["|A|B|", "|-|-|", "|1|2|"])
      == HeaderCells(["A", "B"], 0) + [Untagged("\n"), TableRule(["A", "B"]), Untagged("\n")]
         + RowCells(["1", "2"], 0) + [Untagged("\n")] + [Untagged("\n")]
  {
    TwoCells('A', 'B');
    TwoCells('1', '2');
    assert "|A|B|" == ['|', 'A', '|', 'B', '|'];
    assert "|1|2|" == ['|', '1', '|', '2', '|'];
    ThreeLineTable("|A|B|", "|-|-|", "|1|2|");
  }

  /** `_insert_header`: the formatted text under the level's tag, then a blank line. */
  function HeaderSpans(level: nat, text: string): seq<Span>
  {
    Formatted(text, Some(HeaderTag(level))) + [Untagged("\n\n")]
  }

  /** `_insert_hr`: eighty box-drawing dashes under the `hr` tag. */
  function RuleSpans(): seq<Span>
  {
    [Span(Repeat('─', 80) + "\n\n", ["hr"], None)]
  }

  /** `_insert_list_item`: the bullet, then the text under the `list` tag. */
  function ItemSpans(indent: nat, text: string): seq<Span>
  {
    [Untagged(Bullet(indent))] + Formatted(text, Some("list")) + [Untagged("\n")]
  }

  /** `_insert_blockquote`: two spaces, then the text under the `blockquote` tag. */
  function QuoteSpans(text: string): seq<Span>
  {
    [Untagged("  ")] + Formatted(text, Some("blockquote")) + [Untagged("\n")]
  }

  /** `_insert_paragraph` */
  function ParagraphSpans(line: string): seq<Span>
  {
    Formatted(line, None) + [Untagged("\n")]
  }

  /** `_insert_code_block`: the code untouched, newline-terminated, then a blank line. */
  function CodeSpans(code: string): seq<Span>
  {
    [Untagged(WithNewline(code)), Untagged("\n")]
  }

  /** What each block puts into the widget. */
  function BlockSpans(b: Block): seq<Span>
  {
    match b
    case Header(k, t) => HeaderSpans(k, t)
    case Rule => RuleSpans()
    case Table(lines) => TableSpans(lines)
    case ListItem(n, t) => ItemSpans(n, t)
    case Quote(t) => QuoteSpans(t)
    case Paragraph(l) => ParagraphSpans(l)
    case Blank => [Untagged("\n")]
    case CodeBlock(c) => CodeSpans(c)
  }

  /**
   * A code block is inserted verbatim, without any tag or inline
   * formatting: its text is the code, a newline added if it lacks one,
   * and one more newline.
   */
  lemma CodeBlockText(c: string)
    ensures forall k :: 0 <= k < |CodeSpans(c)| ==>
      CodeSpans(c)[k].tags == [] && CodeSpans(c)[k].link.None?
    ensures TextOf(CodeSpans(c)) == WithNewline(c) + "\n"
  {
    var spans := CodeSpans(c);
    assert spans[1..] == [Untagged("\n")];
    assert spans[1..][1..] == [];
    assert TextOf(spans[1..]) == "\n" + [];
    assert "\n" + [] == "\n";
    assert TextOf(spans) == WithNewline(c) + TextOf(spans[1..]);
  }

  /** A line ending in a newline, with one more newline appended, ends with an empty line. */
  lemma NewlineTwice(c: string, w: string)
    requires StartsWith(w, c) && EndsWith(w, "\n")
    ensures StartsWith(w + "\n", c) && EndsWith(w + "\n", "\n\n")
  {
    var t := w + "\n";
    assert t[..|c|] == w[..|c|];
    assert w[|w| - 1] == '\n' by {
      assert w[|w| - 1..][0] == '\n';
    }
    assert t[|t| - 2..] == "\n\n";
  }

  /** The text of a code block starts with the code and ends with an empty line. */
  lemma CodeBlockVerbatim(c: string)
    ensures StartsWith(TextOf(CodeSpans(c)), c)
    ensures EndsWith(TextOf(CodeSpans(c)), "\n\n")
  {
    CodeBlockText(c);
    NewlineTwice(c, WithNewline(c));
  }

  /** A paragraph without markup shows its line exactly, followed by a newline. */
  lemma PlainParagraph(line: string)
    requires forall j :: 0 <= j < |line| ==> !IsMarkupStart(line[j])
    ensures TextOf(ParagraphSpans(line)) == line + "\n"
  {
    FormattedPlain(line, None);
    TextOfConcat(Formatted(line, None), [Untagged("\n")]);
  }

  /** A header without markup shows its text, every character tagged with the level's tag, then a blank line. */
  lemma PlainHeader(level: nat, text: string)
    requires forall j :: 0 <= j < |text| ==> !IsMarkupStart(text[j])
    ensures TextOf(HeaderSpans(level, text)) == text + "\n\n"
    ensures |HeaderSpans(level, text)| == |text| + 1
    ensures forall k :: 0 <= k < |text| ==> HeaderSpans(level, text)[k].tags == [HeaderTag(level)]
  {
    FormattedPlain(text, Some(HeaderTag(level)));
    TokenizeNoMarkup(text, 0);
    TextOfConcat(Formatted(text, Some(HeaderTag(level))), [Untagged("\n\n")]);
  }

  /**
   * The text of a task-list item `- [x] ...` (with no further dash) is
   * cut into runs none of which is a checkbox: the list pattern has
   * already consumed the `- ` the checkbox pattern needs.
   */
  lemma TaskItemShowsNoCheckbox(line: string, rest: string, mark: char)
    requires line == "- [" + [mark] + "] " + rest && (mark == 'x' || mark == ' ')
    requires '-' !in rest
    ensures MatchListItem(line) == Some((0, line[2..]))
    ensures forall k :: 0 <= k < |Tokenize(line[2..], 0)| ==> !Tokenize(line[2..], 0)[k].Checkbox?
  {
    TaskItemText(line, rest, mark);
    DashItemText(line);
    NoDashNoCheckbox(line[2..], 0);
  }

  lemma TaskItemText(line: string, rest: string, mark: char)
    requires line == "- [" + [mark] + "] " + rest && (mark == 'x' || mark == ' ')
    requires '-' !in rest
    ensures |line| >= 3 && line[0] == '-' && line[1] == ' ' && line[2] == '['
    ensures forall j :: 0 <= j < |line| - 2 ==> line[2..][j] != '-'
  {
    var t := line[2..];
    assert t == "[" + [mark] + "] " + rest;
    forall j | 0 <= j < |t| ensures t[j] != '-' {
      if j >= 4 { assert t[j] == rest[j - 4]; }
    }
  }

  /** The widget content of a sequence of blocks, rendered in order. */
  function DocSpans(blocks: seq<Block>): seq<Span>
    decreases |blocks|, 1
  {
    if blocks == [] then [] else DocSpansSnoc(blocks)
  }

  /** The content of all blocks but the last, then the last block's own. */
  function DocSpansSnoc(blocks: seq<Block>): seq<Span>
    requires blocks != []
    decreases |blocks|, 0
  {
    DocSpans(blocks[..|blocks| - 1]) + BlockSpans(blocks[|blocks| - 1])
  }

  /** The number of characters the blocks put into the widget. */
  function DocLen(blocks: seq<Block>): nat
    decreases |blocks|, 1
  {
    if blocks == [] then 0 else DocLenSnoc(blocks)
  }

  /** The length of all blocks but the last, plus the last block's own. */
  function DocLenSnoc(blocks: seq<Block>): nat
    requires blocks != []
    decreases |blocks|, 0
  {
    DocLen(blocks[..|blocks| - 1]) + |TextOf(BlockSpans(blocks[|blocks| - 1]))|
  }

  lemma {:induction false} DocLenIsTextLength(blocks: seq<Block>)
    ensures DocLen(blocks) == |TextOf(DocSpans(blocks))|
  {
    if blocks != [] {
      var init := blocks[..|blocks| - 1];
      DocLenIsTextLength(init);
      TextOfConcat(DocSpans(init), BlockSpans(blocks[|blocks| - 1]));
    }
  }

  lemma {:induction false} DocLenMonotone(blocks: seq<Block>, k: nat)
    requires k <= |blocks|
    ensures DocLen(blocks[..k]) <= DocLen(blocks)
    decreases |blocks| - k
  {
    if k < |blocks| {
      var init := blocks[..|blocks| - 1];
      assert init[..k] == blocks[..k];
      DocLenMonotone(init, k);
    } else {
      assert blocks[..k] == blocks;
    }
  }

  /** The anchor key a block records: a header's key, nothing for other blocks. */
  function KeyOf(b: Block): Option<string>
  {
    if b.Header? then Some(MakeAnchorKey(b.text)) else None
  }

  /**
   * The anchors of a document: the key of every header, whatever its
   * level, mapped to where the header starts; a later header with the
   * same key overwrites an earlier one.
   */
  function AnchorsOf(blocks: seq<Block>): map<string, nat>
    decreases |blocks|, 1
  {
    if blocks == [] then map[] else AnchorsOfSnoc(blocks)
  }

  /** The anchors of all blocks but the last, then the last block's key, if any, at its start. */
  function AnchorsOfSnoc(blocks: seq<Block>): map<string, nat>
    requires blocks != []
    decreases |blocks|, 0
  {
    var init := blocks[..|blocks| - 1];
    var key := KeyOf(blocks[|blocks| - 1]);
    if key.Some? then AnchorsOf(init)[key.value := DocLen(init)] else AnchorsOf(init)
  }

  /** Rendering one more block adds its anchor, if it is a header, at the current end of the text. */
  lemma AnchorsStep(blocks: seq<Block>, b: Block)
    ensures AnchorsOf(blocks + [b])
      == if b.Header? then AnchorsOf(blocks)[MakeAnchorKey(b.text) := DocLen(blocks)] else AnchorsOf(blocks)
  {
    assert (blocks + [b])[..|blocks|] == blocks;
    assert AnchorsOf(blocks + [b]) == AnchorsOfSnoc(blocks + [b]);
  }

  /** The map built by the update `ks[i] := vs[i]` of every position holding a key, in order. */
  function Updates(ks: seq<Option<string>>, vs: seq<nat>): map<string, nat>
    requires |ks| == |vs|
  {
    if ks == [] then map[]
    else
      var m := Updates(ks[..|ks| - 1], vs[..|vs| - 1]);
      if ks[|ks| - 1].Some? then m[ks[|ks| - 1].value := vs[|vs| - 1]] else m
  }

  /** After the updates, a key holds the value of its last update. */
  lemma {:induction false} LastUpdate(ks: seq<Option<string>>, vs: seq<nat>, key: string, k: nat)
    requires |ks| == |vs| && k < |ks| && ks[k] == Some(key)
    requires forall m :: k < m < |ks| ==> ks[m] != Some(key)
    ensures key in Updates(ks, vs) && Updates(ks, vs)[key] == vs[k]
  {
    var n := |ks| - 1;
    if k < n {
      LastUpdate(ks[..n], vs[..n], key, k);
      assert ks[n] != Some(key);
    }
  }

  /** A key that is never updated is not in the map. */
  lemma {:induction false} NeverUpdated(ks: seq<Option<string>>, vs: seq<nat>, key: string)
    requires |ks| == |vs| && forall m :: 0 <= m < |ks| ==> ks[m] != Some(key)
    ensures key !in Updates(ks, vs)
  {
    if ks != [] {
      var n := |ks| - 1;
      assert ks[n] != Some(key);
      NeverUpdated(ks[..n], vs[..n], key);
    }
  }

  /** The key of every block. */
  function Keys(blocks: seq<Block>): (ks: seq<Option<string>>)
    ensures |ks| == |blocks|
  {
    seq(|blocks|, i requires 0 <= i < |blocks| => KeyOf(blocks[i]))
  }

  /** Where every block starts. */
  function Starts(blocks: seq<Block>): (vs: seq<nat>)
    ensures |vs| == |blocks|
  {
    seq(|blocks|, i requires 0 <= i < |blocks| => DocLen(blocks[..i]))
  }

  /** One more update, in terms of the updates before it. */
  lemma UpdatesSnoc(ks: seq<Option<string>>, vs: seq<nat>, m: map<string, nat>)
    requires |ks| == |vs| && ks != []
    requires m == Updates(ks[..|ks| - 1], vs[..|vs| - 1])
    ensures Updates(ks, vs) == if ks[|ks| - 1].Some? then m[ks[|ks| - 1].value := vs[|vs| - 1]] else m
  {
  }

  /** The anchors are the updates, in document order, of each header's key to its start. */
  lemma {:induction false} AnchorsAreUpdates(blocks: seq<Block>)
    ensures AnchorsOf(blocks) == Updates(Keys(blocks), Starts(blocks))
  {
    if blocks != [] {
      var n := |blocks| - 1;
      var init := blocks[..n];
      var ks, vs := Keys(blocks), Starts(blocks);
      AnchorsAreUpdates(init);
      assert ks[..n] == Keys(init);
      assert vs[..n] == Starts(init) by {
        forall i | 0 <= i < n ensures vs[i] == Starts(init)[i] {
          assert blocks[..i] == init[..i];
        }
      }
      assert ks[n] == KeyOf(blocks[n]) && vs[n] == DocLen(init);
      UpdatesSnoc(ks, vs, AnchorsOf(init));
      assert AnchorsOf(blocks) == AnchorsOfSnoc(blocks);
    }
  }

  /**
   * The anchor of a key holds the position at which the last header
   * with that key starts.
   */
  lemma DocumentAnchor(blocks: seq<Block>, key: string, k: nat)
    requires k < |blocks| && KeyOf(blocks[k]) == Some(key)
    requires forall m :: k < m < |blocks| ==> KeyOf(blocks[m]) != Some(key)
    ensures key in AnchorsOf(blocks) && AnchorsOf(blocks)[key] == DocLen(blocks[..k])
  {
    AnchorsAreUpdates(blocks);
    LastUpdate(Keys(blocks), Starts(blocks), key, k);
  }

  /** A key that no header has is not an anchor of the document. */
  lemma NoHeaderNoAnchor(blocks: seq<Block>, key: string)
    requires forall m :: 0 <= m < |blocks| ==> KeyOf(blocks[m]) != Some(key)
    ensures key !in AnchorsOf(blocks)
  {
    var ks := Keys(blocks);
    assert forall m :: 0 <= m < |ks| ==> ks[m] == KeyOf(blocks[m]);
    AnchorsAreUpdates(blocks);
    NeverUpdated(ks, Starts(blocks), key);
  }

  /** An entry of the table of contents: the indented label and the header's position. */
  datatype TocEntry = TocEntry(caption: string, pos: nat)

  /** `'  ' * (level - 1)`, empty when the count is not positive. */
  function TocIndent(level: nat): string
  {
    if level == 0 then [] else Repeat(' ', 2 * (level - 1))
  }

  /** The table of contents: headers of level 1 to 3 only, indented two spaces per level below 1. */
  function TocOf(blocks: seq<Block>): seq<TocEntry>
  {
    if blocks == [] then []
    else
      var init := blocks[..|blocks| - 1];
      var b := blocks[|blocks| - 1];
      if b.Header? && b.level <= 3 then
        TocOf(init) + [TocEntry(TocIndent(b.level) + b.text, DocLen(init))]
      else TocOf(init)
  }

  /** Table-of-contents positions are in document order and lie within the document. */
  lemma {:induction false} TocOrdered(blocks: seq<Block>)
    ensures forall a, b :: 0 <= a < b < |TocOf(blocks)| ==> TocOf(blocks)[a].pos <= TocOf(blocks)[b].pos
    ensures forall a :: 0 <= a < |TocOf(blocks)| ==> TocOf(blocks)[a].pos <= DocLen(blocks)
  {
    if blocks != [] {
      var init := blocks[..|blocks| - 1];
      TocOrdered(init);
    }
  }

  /** Only headers of level 1 to 3 enter the table of contents: other blocks leave it unchanged. */
  lemma TocSkipsDeepHeaders(blocks: seq<Block>, b: Block)
    requires !(b.Header? && b.level <= 3)
    ensures TocOf(blocks + [b]) == TocOf(blocks)
  {
    assert (blocks + [b])[..|blocks|] == blocks;
  }

  /** A widget holding `out`, `anchors` and `toc` shows the rendering of `content`. */
  ghost predicate Displays(out: seq<Span>, anchors: map<string, nat>, toc: seq<TocEntry>, content: string)
  {
    out == DocSpans(Parse(content)) && anchors == AnchorsOf(Parse(content)) && toc == TocOf(Parse(content))
  }
}
