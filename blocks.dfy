/**
 * The line-level block parser of the markdown viewer. The document is split
 * on newlines and walked with one forward cursor; two flags (inside a code
 * fence, inside a table) and their collected lines are the parser's state.
 * For each line the first of these that applies wins: fence toggle, capture
 * inside a fence, header, horizontal rule, table start or continuation,
 * list item, blockquote, paragraph or blank line.
 */
module Blocks {
  import opened Wrappers
  import opened Text

  datatype Block =
    | Header(level: nat, text: string)
    | Rule
    | Table(lines: seq<string>)
    | ListItem(indent: nat, text: string)
    | Quote(text: string)
    | Paragraph(line: string)
    | Blank
    | CodeBlock(code: string)

  /** The parser's mutable state: the two flags and the lines each has collected. */
  datatype Mode = Mode(inCode: bool, code: seq<string>, inTable: bool, table: seq<string>)

  const Start := Mode(false, [], false, [])

  /** A line with no newline in it, as every piece of `content.split('\n')` is. */
  predicate IsLine(line: string) { '\n' !in line }

  /** `line.strip().startswith('```')` */
  predicate IsFence(line: string) { StartsWith(Strip(line), "```") }

  /** The number of leading `c` characters. */
  function Leading(s: string, c: char): (n: nat)
    ensures n <= |s| && (forall j :: 0 <= j < n ==> s[j] == c) && (n < |s| ==> s[n] != c)
  {
    |s| - |LStripChar(s, c)|
  }

  /**
   * The shape `^(#{1,6})\s+(.+)$` asks for, with `k` hashes and `w`
   * whitespace characters before the captured text (which `.` keeps free
   * of newlines).
   */
  predicate HeaderShape(line: string, k: nat, w: nat) {
    1 <= k <= 6 && w >= 1 && k + w < |line|
    && (forall j :: 0 <= j < k ==> line[j] == '#')
    && (forall j :: k <= j < k + w ==> IsSpace(line[j]))
    && '\n' !in line[k + w..]
  }

  /** The header recogniser: the level and the stripped text. */
  function MatchHeader(line: string): (r: Option<(nat, string)>)
    requires IsLine(line)
  {
    var k := Leading(line, '#');
    if 1 <= k <= 6 && k + 2 <= |line| && IsSpace(line[k]) then Some((k, Strip(line[k..])))
    else None
  }

  /** Leading whitespace does not change what `strip()` keeps. */
  lemma StripAfterSpaces(s: string, w: nat)
    requires w <= |s| && forall j :: 0 <= j < w ==> IsSpace(s[j])
    ensures Strip(s[w..]) == Strip(s)
  {
    if w > 0 {
      assert IsSpace(s[0]);
      assert s[1..][w - 1..] == s[w..];
      StripAfterSpaces(s[1..], w - 1);
    }
  }

  /** Any split of a header line into hashes, whitespace and text yields the recogniser's level and text. */
  lemma HeaderShapeMatch(line: string, k: nat, w: nat)
    requires IsLine(line) && HeaderShape(line, k, w)
    ensures MatchHeader(line) == Some((k, Strip(line[k + w..])))
  {
    assert line[k] != '#' by { assert IsSpace(line[k]); }
    assert Leading(line, '#') == k;
    StripAfterSpaces(line[k..], w);
    assert line[k..][w..] == line[k + w..];
  }

  /**
   * A line is a header exactly when it has the shape of the pattern; the
   * level is the number of hashes and the text is the stripped remainder.
   */
  lemma HeaderRecognition(line: string)
    requires IsLine(line)
    ensures MatchHeader(line).Some? <==> exists k, w :: HeaderShape(line, k, w)
    ensures forall k, w :: HeaderShape(line, k, w) ==>
      MatchHeader(line) == Some((k, Strip(line[k + w..])))
  {
    if MatchHeader(line).Some? {
      assert HeaderShape(line, Leading(line, '#'), 1);
    }
    forall k, w | HeaderShape(line, k, w)
      ensures MatchHeader(line) == Some((k, Strip(line[k + w..])))
    {
      HeaderShapeMatch(line, k, w);
    }
  }

  /** `re.match(r'^[-*_]{3,}$', line.strip())` */
  predicate IsRule(line: string) {
    var t := Strip(line);
    |t| >= 3 && forall j :: 0 <= j < |t| ==> t[j] in "-*_"
  }

  /** The characters of the class `[\s:|-]`. */
  predicate InSeparatorClass(c: char) { IsSpace(c) || c == ':' || c == '|' || c == '-' }

  /** `re.match(r'^\|?[\s:|-]+\|', line)`: a `|` at index 1 or later preceded only by class characters. */
  predicate SeparatorShape(line: string) {
    exists b :: 1 <= b < |line| && line[b] == '|' && forall j :: 0 <= j < b ==> InSeparatorClass(line[j])
  }

  /** The length of the longest prefix made of class characters. */
  function SeparatorPrefix(line: string): (n: nat)
    ensures n <= |line| && (forall j :: 0 <= j < n ==> InSeparatorClass(line[j]))
    ensures n < |line| ==> !InSeparatorClass(line[n])
  {
    if line == [] || !InSeparatorClass(line[0]) then 0
    else 1 + SeparatorPrefix(line[1..])
  }

  /** The table separator-row recogniser, as a scan. */
  function IsSeparatorRow(line: string): bool
  {
    var p := SeparatorPrefix(line);
    p >= 2 && '|' in line[1..p]
  }

  lemma SeparatorRowCorrect(line: string)
    ensures IsSeparatorRow(line) <==> SeparatorShape(line)
  {
    var p := SeparatorPrefix(line);
    if IsSeparatorRow(line) {
      var b :| 0 <= b < |line[1..p]| && line[1..p][b] == '|';
      assert line[b + 1] == '|';
    }
    if SeparatorShape(line) {
      var b :| 1 <= b < |line| && line[b] == '|' && forall j :: 0 <= j < b ==> InSeparatorClass(line[j]);
      assert b < p;
      assert line[1..p][b - 1] == '|';
    }
  }

  /** The end of the run of whitespace that starts at `from`. */
  function SpaceEnd(line: string, from: nat): (k: nat)
    requires from <= |line|
    ensures from <= k <= |line|
    decreases |line| - from
  {
    if from < |line| && IsSpace(line[from]) then SpaceEnd(line, from + 1) else from
  }

  /** The end of the run of ASCII digits that starts at `from`. */
  function DigitEnd(line: string, from: nat): (k: nat)
    requires from <= |line|
    ensures from <= k <= |line|
    decreases |line| - from
  {
    if from < |line| && IsDigit(line[from]) then DigitEnd(line, from + 1) else from
  }

  /** `SpaceEnd` stops at the first character that is not whitespace. */
  lemma {:induction false} SpaceEndRun(line: string, from: nat)
    requires from <= |line|
    ensures forall j :: from <= j < SpaceEnd(line, from) ==> IsSpace(line[j])
    ensures SpaceEnd(line, from) < |line| ==> !IsSpace(line[SpaceEnd(line, from)])
    decreases |line| - from
  {
    if from < |line| && IsSpace(line[from]) {
      SpaceEndRun(line, from + 1);
    }
  }

  /** A whitespace run that ends at a non-space (or at the end) is the one `SpaceEnd` finds. */
  lemma {:induction false} SpaceEndAt(line: string, from: nat, k: nat)
    requires from <= k <= |line| && (forall j :: from <= j < k ==> IsSpace(line[j]))
    requires k < |line| ==> !IsSpace(line[k])
    ensures SpaceEnd(line, from) == k
    decreases k - from
  {
    if from < k {
      SpaceEndAt(line, from + 1, k);
    }
  }

  /** `DigitEnd` stops at the first character that is not a digit. */
  lemma {:induction false} DigitEndRun(line: string, from: nat)
    requires from <= |line|
    ensures forall j :: from <= j < DigitEnd(line, from) ==> IsDigit(line[j])
    ensures DigitEnd(line, from) < |line| ==> !IsDigit(line[DigitEnd(line, from)])
    decreases |line| - from
  {
    if from < |line| && IsDigit(line[from]) {
      DigitEndRun(line, from + 1);
    }
  }

  /** A digit run that ends at a non-digit is the one `DigitEnd` finds. */
  lemma {:induction false} DigitEndAt(line: string, from: nat, k: nat)
    requires from <= k < |line| && (forall j :: from <= j < k ==> IsDigit(line[j])) && !IsDigit(line[k])
    ensures DigitEnd(line, from) == k
    decreases k - from
  {
    if from < k {
      DigitEndAt(line, from + 1, k);
    }
  }

  /** `([-*+]|\d+\.)` at index `w`: the marker's length, 0 when there is none. */
  function ListMarker(line: string, w: nat): (m: nat)
    requires w <= |line|
    ensures w + m <= |line|
  {
    if w < |line| && line[w] in "-*+" then 1
    else
      var d := DigitEnd(line, w);
      if w < d < |line| && line[d] == '.' then d - w + 1 else 0
  }

  /**
   * The list-item recogniser for `^(\s*)([-*+]|\d+\.)\s+(.+)$`: the indent
   * (leading whitespace count) and the captured text. `\s+` is greedy but
   * must leave `.+` one character, so a marker followed only by whitespace
   * captures that whitespace's last character.
   */
  function MatchListItem(line: string): Option<(nat, string)>
  {
    var w := SpaceEnd(line, 0);
    var m := ListMarker(line, w);
    if m >= 1 && w + m + 2 <= |line| && IsSpace(line[w + m]) then
      var k := SpaceEnd(line, w + m);
      if k == |line| then Some((w, [line[|line| - 1]])) else Some((w, line[k..]))
    else None
  }

  /**
   * The shape `^(\s*)([-*+]|\d+\.)\s+(.+)$` asks for: `w` whitespace
   * characters, a marker of `m` characters (one bullet, or digits and a
   * dot), `s` whitespace characters, and a non-empty text free of newlines.
   */
  predicate ListItemShape(line: string, w: nat, m: nat, s: nat) {
    m >= 1 && s >= 1 && w + m + s < |line|
    && (forall j :: 0 <= j < w ==> IsSpace(line[j]))
    && ((m == 1 && line[w] in "-*+")
        || (m >= 2 && line[w + m - 1] == '.' && forall j :: w <= j < w + m - 1 ==> IsDigit(line[j])))
    && (forall j :: w + m <= j < w + m + s ==> IsSpace(line[j]))
    && '\n' !in line[w + m + s..]
  }

  /** The split the greedy `\s+` picks: it stops at the text's first non-space or one short of the end. */
  predicate ListItemGreedy(line: string, w: nat, m: nat, s: nat) {
    ListItemShape(line, w, m, s) && (w + m + s + 1 == |line| || !IsSpace(line[w + m + s]))
  }

  /** In any split of a list item, the indent and the marker are the ones the recogniser measures. */
  lemma ListItemPrefix(line: string, w: nat, m: nat, s: nat)
    requires ListItemShape(line, w, m, s)
    ensures SpaceEnd(line, 0) == w && ListMarker(line, w) == m
  {
    assert !IsSpace(line[w]);
    SpaceEndAt(line, 0, w);
    if m >= 2 {
      DigitEndAt(line, w, w + m - 1);
    }
  }

  /** The greedy split of a list item yields the recogniser's indent and text. */
  lemma ListItemShapeMatch(line: string, w: nat, m: nat, s: nat)
    requires ListItemGreedy(line, w, m, s)
    ensures MatchListItem(line) == Some((w, line[w + m + s..]))
  {
    ListItemPrefix(line, w, m, s);
    var t := w + m + s;
    if !IsSpace(line[t]) {
      SpaceEndAt(line, w + m, t);
    } else {
      SpaceEndAt(line, w + m, |line|);
      assert line[t..] == [line[|line| - 1]];
    }
  }

  /** A marker the recogniser measures is a bullet, or digits and a dot. */
  lemma ListMarkerShape(line: string, w: nat)
    requires w <= |line| && ListMarker(line, w) >= 1
    ensures var m := ListMarker(line, w);
      (m == 1 && line[w] in "-*+")
      || (m >= 2 && line[w + m - 1] == '.' && forall j :: w <= j < w + m - 1 ==> IsDigit(line[j]))
  {
    DigitEndRun(line, w);
  }

  /** A matched line has a greedy split. */
  lemma ListItemGreedyOf(line: string)
    requires IsLine(line) && MatchListItem(line).Some?
    ensures exists m, s :: ListItemGreedy(line, SpaceEnd(line, 0), m, s)
  {
    var w := SpaceEnd(line, 0);
    var m := ListMarker(line, w);
    var k := SpaceEnd(line, w + m);
    SpaceEndRun(line, 0);
    SpaceEndRun(line, w + m);
    ListMarkerShape(line, w);
    var t := if k == |line| then |line| - 1 else k;
    assert ListItemGreedy(line, w, m, t - (w + m));
  }

  /**
   * A line is a list item exactly when it has the shape of the pattern;
   * the indent is the leading whitespace and the text is what follows the
   * greedy whitespace run.
   */
  lemma ListItemRecognition(line: string)
    requires IsLine(line)
    ensures MatchListItem(line).Some? <==> exists w, m, s :: ListItemShape(line, w, m, s)
    ensures MatchListItem(line).Some? ==> exists m, s :: ListItemGreedy(line, SpaceEnd(line, 0), m, s)
    ensures forall w, m, s :: ListItemGreedy(line, w, m, s) ==>
      MatchListItem(line) == Some((w, line[w + m + s..]))
  {
    if MatchListItem(line).Some? {
      ListItemGreedyOf(line);
    }
    if exists w, m, s :: ListItemShape(line, w, m, s) {
      var w, m, s :| ListItemShape(line, w, m, s);
      ListItemPrefix(line, w, m, s);
    }
    forall w, m, s | ListItemGreedy(line, w, m, s)
      ensures MatchListItem(line) == Some((w, line[w + m + s..]))
    {
      ListItemShapeMatch(line, w, m, s);
    }
  }

  /**
   * A list item's indent counts the line's leading whitespace, and its
   * text is a non-empty proper tail of the line.
   */
  lemma ListItemText(line: string)
    requires MatchListItem(line).Some?
    ensures var (w, text) := MatchListItem(line).value;
      w < |line| && (forall j :: 0 <= j < w ==> IsSpace(line[j])) && !IsSpace(line[w])
      && text != [] && |text| < |line| && EndsWith(line, text)
  {
    SpaceEndRun(line, 0);
    var k := SpaceEnd(line, SpaceEnd(line, 0) + ListMarker(line, SpaceEnd(line, 0)));
    if k == |line| {
      assert line[|line| - 1..] == [line[|line| - 1]];
    }
  }

  /** A line made of a dash, one space and a non-space is a list item whose text follows the space. */
  lemma DashItemText(line: string)
    requires |line| >= 3 && line[0] == '-'
    requires line[1] == ' ' && !IsSpace(line[2])
    ensures MatchListItem(line) == Some((0, line[2..]))
  {
    SpaceEndAt(line, 0, 0);
    SpaceEndAt(line, 1, 2);
  }

  /** `line.strip().startswith('>')` */
  predicate IsQuote(line: string) { StartsWith(Strip(line), ">") }

  /** `line.strip()[1:].strip()`: every space after `>` is dropped, not just one. */
  function QuoteText(line: string): (r: string)
    requires IsQuote(line)
  {
    Strip(Strip(line)[1..])
  }

  predicate AllLines(lines: seq<string>) { forall k :: 0 <= k < |lines| ==> IsLine(lines[k]) }

  /**
   * What the parser's tests say about one line, computed once: the raw
   * line, and the outcome of each recogniser the loop may apply to it.
   */
  datatype LineInfo = LineInfo(
    raw: string,
    fence: bool,
    header: Option<(nat, string)>,
    rule: bool,
    bar: bool,
    separator: bool,
    item: Option<(nat, string)>,
    quote: Option<string>,
    blank: bool)

  /** The facts about a line's classification that the parser's lemmas rely on. */
  predicate Coherent(c: LineInfo) {
    (c.separator ==> c.bar) && (c.header.Some? ==> !c.fence)
  }

  /** A header line starts with `#`, so it is never a fence. */
  lemma HeaderNotFence(line: string)
    requires IsLine(line)
    ensures MatchHeader(line).Some? ==> !IsFence(line)
  {
    if MatchHeader(line).Some? {
      assert line[0] == '#';
      HashNotFence(line);
    }
  }

  /** A line starting with `#` is not a fence. */
  lemma HashNotFence(line: string)
    requires line != [] && line[0] == '#'
    ensures !IsFence(line)
  {
    assert LStrip(line) == line;
    assert Strip(line)[0] == '#';
  }

  lemma SeparatorHasBar(line: string)
    ensures IsSeparatorRow(line) ==> '|' in line
  {
    if IsSeparatorRow(line) {
      var p := SeparatorPrefix(line);
      var b :| 0 <= b < |line[1..p]| && line[1..p][b] == '|';
      assert line[b + 1] == '|';
    }
  }

  function Classify(line: string): (c: LineInfo)
    requires IsLine(line)
    ensures c.raw == line && (c.bar <==> '|' in line) && Coherent(c)
    ensures c.blank <==> forall j :: 0 <= j < |line| ==> IsSpace(line[j])
  {
    var h := MatchHeader(line);
    HeaderNotFence(line);
    SeparatorHasBar(line);
    LineInfo(line, IsFence(line), h, IsRule(line), '|' in line, IsSeparatorRow(line),
      MatchListItem(line), if IsQuote(line) then Some(QuoteText(line)) else None, Strip(line) == [])
  }

  /** The classification of every line. */
  function ClassifyAll(lines: seq<string>): (infos: seq<LineInfo>)
    requires AllLines(lines)
    ensures |infos| == |lines|
    decreases |lines|, 1
  {
    if lines == [] then [] else ClassifyAllSnoc(lines)
  }

  function ClassifyAllSnoc(lines: seq<string>): (infos: seq<LineInfo>)
    requires AllLines(lines) && lines != []
    ensures |infos| == |lines|
    decreases |lines|, 0
  {
    ClassifyAll(lines[..|lines| - 1]) + [Classify(lines[|lines| - 1])]
  }

  /** Line `k` is classified on its own. */
  lemma {:induction false} ClassifyAt(lines: seq<string>, k: nat)
    requires AllLines(lines) && k < |lines|
    ensures ClassifyAll(lines)[k] == Classify(lines[k])
    decreases |lines|
  {
    assert ClassifyAll(lines) == ClassifyAllSnoc(lines);
    if k < |lines| - 1 {
      ClassifyAt(lines[..|lines| - 1], k);
    }
  }

  /** Every classified line is coherent, so the parser lemmas' `Coherent` hypotheses hold for parsed documents. */
  lemma ClassifyAllCoherent(lines: seq<string>)
    requires AllLines(lines)
    ensures forall k :: 0 <= k < |lines| ==> Coherent(ClassifyAll(lines)[k])
  {
    forall k | 0 <= k < |lines|
      ensures Coherent(ClassifyAll(lines)[k])
    {
      ClassifyAt(lines, k);
    }
  }

  /** Starts a table: a `|` line followed by a separator row, outside a table. */
  predicate StartsTable(infos: seq<LineInfo>, i: nat, st: Mode)
    requires i < |infos|
  {
    infos[i].bar && !st.inTable && i + 1 < |infos| && infos[i + 1].separator
  }

  /** What one look at a line does: the blocks it emits, the next line to look at, the new state. */
  datatype Outcome = Outcome(emit: seq<Block>, next: nat, mode: Mode)

  /**
   * One pass of the parser's loop over line `i`. The line that closes a
   * table is looked at again, so `next` stays at `i` for that one step.
   */
  function Step(infos: seq<LineInfo>, i: nat, st: Mode): (o: Outcome)
    requires i < |infos|
    ensures o.next == i + 1 || (o.next == i && st.inTable && !o.mode.inTable)
    ensures |o.emit| <= 1
  {
    var c := infos[i];
    if c.fence then
      if !st.inCode then Outcome([], i + 1, st.(inCode := true, code := []))
      else Outcome([CodeBlock(JoinWith(st.code, '\n'))], i + 1, st.(inCode := false, code := []))
    else if st.inCode then Outcome([], i + 1, st.(code := st.code + [c.raw]))
    else if c.header.Some? then Outcome([Header(c.header.value.0, c.header.value.1)], i + 1, st)
    else if c.rule then Outcome([Rule], i + 1, st)
    else if StartsTable(infos, i, st) then Outcome([], i + 1, st.(inTable := true, table := [c.raw]))
    else if st.inTable then
      if c.bar then Outcome([], i + 1, st.(table := st.table + [c.raw]))
      else Outcome([Table(st.table)], i, st.(inTable := false, table := []))
    else Outcome([LineBlock(c)], i + 1, st)
  }

  /** A line outside code, tables, headers and rules: a list item, a quote, a paragraph or a blank line. */
  function LineBlock(c: LineInfo): Block
  {
    if c.item.Some? then ListItem(c.item.value.0, c.item.value.1)
    else if c.quote.Some? then Quote(c.quote.value)
    else if !c.blank then Paragraph(c.raw)
    else Blank
  }

  /**
   * The blocks emitted from line `i` on, in state `st`. A code fence or a
   * table still open when the lines run out is never emitted.
   */
  function ParseFrom(infos: seq<LineInfo>, i: nat, st: Mode): seq<Block>
    decreases |infos| - i, if st.inTable then 1 else 0, 1
  {
    if i >= |infos| then [] else ParseAt(infos, i, st)
  }

  /** The blocks emitted from a line inside `infos`: what its step emits, then the rest. */
  function ParseAt(infos: seq<LineInfo>, i: nat, st: Mode): seq<Block>
    requires i < |infos|
    decreases |infos| - i, if st.inTable then 1 else 0, 0
  {
    var o := Step(infos, i, st);
    o.emit + ParseFrom(infos, o.next, o.mode)
  }

  lemma SplitLines(content: string)
    ensures AllLines(SplitBy(content, {'\n'}))
  {
    var ls := SplitBy(content, {'\n'});
    forall k | 0 <= k < |ls| ensures IsLine(ls[k]) {
      assert forall j :: 0 <= j < |ls[k]| ==> ls[k][j] != '\n';
    }
  }

  /** `content.split('\n')` */
  function Lines(content: string): (ls: seq<string>)
    ensures |ls| >= 1 && AllLines(ls)
  {
    SplitLines(content);
    SplitBy(content, {'\n'})
  }

  /** The blocks of a whole document. */
  function Parse(content: string): seq<Block>
  {
    ParseFrom(ClassifyAll(Lines(content)), 0, Start)
  }

  /** Parsing from a line is what its step emits followed by parsing from where the step leaves off. */
  lemma ParseStep(infos: seq<LineInfo>, i: nat, st: Mode)
    requires i < |infos|
    ensures ParseFrom(infos, i, st)
      == Step(infos, i, st).emit + ParseFrom(infos, Step(infos, i, st).next, Step(infos, i, st).mode)
  {
    assert ParseFrom(infos, i, st) == ParseAt(infos, i, st);
  }

  /** No fence among `infos[a..b]`. */
  predicate NoFence(infos: seq<LineInfo>, a: nat, b: nat)
    requires a <= b <= |infos|
  {
    forall k :: a <= k < b ==> !infos[k].fence
  }

  /** Inside a code block, a line that is no fence is kept and nothing is emitted. */
  lemma CodeLine(infos: seq<LineInfo>, i: nat, st: Mode)
    requires st.inCode && i < |infos| && !infos[i].fence
    ensures ParseFrom(infos, i, st) == ParseFrom(infos, i + 1, st.(code := st.code + [infos[i].raw]))
  {
    ParseStep(infos, i, st);
  }

  /** Inside a code block, a fence emits the kept lines as one code block. */
  lemma CodeClose(infos: seq<LineInfo>, j: nat, st: Mode)
    requires st.inCode && j < |infos| && infos[j].fence
    ensures ParseFrom(infos, j, st)
      == [CodeBlock(JoinWith(st.code, '\n'))] + ParseFrom(infos, j + 1, st.(inCode := false, code := []))
  {
    ParseStep(infos, j, st);
  }

  /** Closing a code block forgets the kept lines, whatever they were. */
  lemma CodeReset(st: Mode, lines: seq<string>)
    ensures st.(code := lines).(inCode := false, code := []) == st.(inCode := false, code := [])
  {
  }

  /** One kept line: the capture from `i + 1` (the hypothesis) gives the capture from `i`. */
  lemma CodeCaptureStep(infos: seq<LineInfo>, i: nat, j: nat, st: Mode)
    requires st.inCode && i < j < |infos| && !infos[i].fence
    requires ParseFrom(infos, i + 1, st.(code := st.code + [infos[i].raw]))
      == [CodeBlock(JoinWith(st.code + [infos[i].raw] + Raws(infos, i + 1, j), '\n'))]
         + ParseFrom(infos, j + 1, st.(inCode := false, code := []))
    ensures ParseFrom(infos, i, st)
      == [CodeBlock(JoinWith(st.code + Raws(infos, i, j), '\n'))]
         + ParseFrom(infos, j + 1, st.(inCode := false, code := []))
  {
    CodeLine(infos, i, st);
    assert Raws(infos, i, j) == [infos[i].raw] + Raws(infos, i + 1, j);
    assert st.code + Raws(infos, i, j) == st.code + [infos[i].raw] + Raws(infos, i + 1, j);
  }

  lemma {:induction false} CodeCapture(infos: seq<LineInfo>, i: nat, j: nat, st: Mode)
    requires st.inCode && i <= j < |infos| && NoFence(infos, i, j) && infos[j].fence
    ensures ParseFrom(infos, i, st)
      == [CodeBlock(JoinWith(st.code + Raws(infos, i, j), '\n'))]
         + ParseFrom(infos, j + 1, st.(inCode := false, code := []))
    decreases j - i
  {
    if i == j {
      CodeClose(infos, j, st);
      assert st.code + Raws(infos, i, j) == st.code;
    } else {
      var st' := st.(code := st.code + [infos[i].raw]);
      CodeCapture(infos, i + 1, j, st');
      CodeReset(st, st.code + [infos[i].raw]);
      CodeCaptureStep(infos, i, j, st);
    }
  }

  /** The raw lines of `infos[a..b]`. */
  function Raws(infos: seq<LineInfo>, a: nat, b: nat): (r: seq<string>)
    requires a <= b <= |infos|
    ensures |r| == b - a && forall k :: 0 <= k < b - a ==> r[k] == infos[a + k].raw
    decreases b - a
  {
    if a == b then [] else [infos[a].raw] + Raws(infos, a + 1, b)
  }

  /**
   * The lines strictly between an opening and a closing fence become one
   * code block, joined verbatim with newlines; parsing resumes after the
   * closing fence.
   */
  lemma FencedCode(infos: seq<LineInfo>, i: nat, j: nat, st: Mode)
    requires !st.inCode && i < j < |infos| && infos[i].fence && NoFence(infos, i + 1, j) && infos[j].fence
    ensures ParseFrom(infos, i, st)
      == [CodeBlock(JoinWith(Raws(infos, i + 1, j), '\n'))] + ParseFrom(infos, j + 1, st.(code := []))
  {
    var open := st.(inCode := true, code := []);
    CodeCapture(infos, i + 1, j, open);
    assert open.code + Raws(infos, i + 1, j) == Raws(infos, i + 1, j);
    assert open.(inCode := false, code := []) == st.(code := []);
  }

  lemma {:induction false} CodeToEnd(infos: seq<LineInfo>, i: nat, st: Mode)
    requires st.inCode && i <= |infos| && NoFence(infos, i, |infos|)
    ensures ParseFrom(infos, i, st) == []
    decreases |infos| - i
  {
    if i < |infos| {
      CodeToEnd(infos, i + 1, st.(code := st.code + [infos[i].raw]));
    }
  }

  /** A fence that is never closed swallows the rest of the document: nothing more is emitted. */
  lemma UnterminatedFence(infos: seq<LineInfo>, i: nat, st: Mode)
    requires !st.inCode && i < |infos| && infos[i].fence && NoFence(infos, i + 1, |infos|)
    ensures ParseFrom(infos, i, st) == []
  {
    CodeToEnd(infos, i + 1, st.(inCode := true, code := []));
  }

  /** A line that none of the checks before the table checks claims. */
  predicate PlainLine(c: LineInfo) { !c.fence && c.header.None? && !c.rule }

  /** `infos[a..b]` all contain `|` and are plain. */
  predicate TableRows(infos: seq<LineInfo>, a: nat, b: nat)
    requires a <= b <= |infos|
  {
    forall k :: a <= k < b ==> infos[k].bar && PlainLine(infos[k])
  }

  lemma {:induction false} TableCollect(infos: seq<LineInfo>, i: nat, j: nat, st: Mode)
    requires !st.inCode && st.inTable && i <= j < |infos| && TableRows(infos, i, j)
    requires !infos[j].bar && PlainLine(infos[j])
    ensures ParseFrom(infos, i, st)
      == [Table(st.table + Raws(infos, i, j))] + ParseFrom(infos, j, st.(inTable := false, table := []))
    decreases j - i
  {
    if i == j {
      assert st.table + Raws(infos, i, j) == st.table;
    } else {
      var st' := st.(table := st.table + [infos[i].raw]);
      TableCollect(infos, i + 1, j, st');
      assert st'.table + Raws(infos, i + 1, j) == st.table + Raws(infos, i, j);
      assert st'.(inTable := false, table := []) == st.(inTable := false, table := []);
    }
  }

  /**
   * A `|` line followed by a separator row starts a table; the following
   * `|` lines are collected, and the first line without `|` closes the
   * table and is parsed again rather than skipped. An emitted table has at
   * least its header line and its separator row.
   */
  lemma TableBlock(infos: seq<LineInfo>, i: nat, j: nat, st: Mode)
    requires !st.inCode && !st.inTable && i < j < |infos| && PlainLine(infos[i]) && infos[i].bar
    requires infos[i + 1].separator && Coherent(infos[i + 1]) && TableRows(infos, i + 1, j)
    requires !infos[j].bar && PlainLine(infos[j])
    ensures ParseFrom(infos, i, st) == [Table(Raws(infos, i, j))] + ParseFrom(infos, j, st.(table := []))
    ensures j - i >= 2
  {
    var open := st.(inTable := true, table := [infos[i].raw]);
    TableOpens(infos, i, st);
    TableCollect(infos, i + 1, j, open);
    RawsCons(infos, i, j);
    assert open.(inTable := false, table := []) == st.(table := []);
  }

  /** A `|` line followed by a separator row opens a table holding that line. */
  lemma TableOpens(infos: seq<LineInfo>, i: nat, st: Mode)
    requires !st.inCode && !st.inTable && i + 1 < |infos| && PlainLine(infos[i]) && infos[i].bar
    requires infos[i + 1].separator
    ensures ParseFrom(infos, i, st) == ParseFrom(infos, i + 1, st.(inTable := true, table := [infos[i].raw]))
  {
    assert StartsTable(infos, i, st);
    ParseStep(infos, i, st);
  }

  lemma RawsCons(infos: seq<LineInfo>, a: nat, b: nat)
    requires a < b <= |infos|
    ensures [infos[a].raw] + Raws(infos, a + 1, b) == Raws(infos, a, b)
  {
  }

  lemma {:induction false} TableToEnd(infos: seq<LineInfo>, i: nat, st: Mode)
    requires !st.inCode && st.inTable && i <= |infos| && TableRows(infos, i, |infos|)
    ensures ParseFrom(infos, i, st) == []
    decreases |infos| - i
  {
    if i < |infos| {
      TableToEnd(infos, i + 1, st.(table := st.table + [infos[i].raw]));
    }
  }

  /**
   * A `|` line outside a table that is not followed by a separator row
   * (or is the last line) opens no table: it is read as a list item, a
   * quote, a paragraph or a blank line, like any other line.
   */
  lemma BarLineWithoutSeparator(infos: seq<LineInfo>, i: nat, st: Mode)
    requires !st.inCode && !st.inTable && i < |infos| && PlainLine(infos[i]) && infos[i].bar
    requires i + 1 == |infos| || !infos[i + 1].separator
    ensures ParseFrom(infos, i, st) == [LineBlock(infos[i])] + ParseFrom(infos, i + 1, st)
    ensures !LineBlock(infos[i]).Table?
  {
    ParseStep(infos, i, st);
  }

  /** A table still open when the document ends is never emitted. */
  lemma TrailingTableDropped(infos: seq<LineInfo>, i: nat, st: Mode)
    requires !st.inCode && !st.inTable && i + 1 < |infos| && PlainLine(infos[i]) && infos[i].bar
    requires infos[i + 1].separator && TableRows(infos, i + 1, |infos|)
    ensures ParseFrom(infos, i, st) == []
  {
    assert StartsTable(infos, i, st);
    TableToEnd(infos, i + 1, st.(inTable := true, table := [infos[i].raw]));
  }

  /**
   * A header or a horizontal rule met while a table is being collected is
   * emitted at once, ahead of the table, and the collection goes on.
   */
  lemma HeaderInsideTable(infos: seq<LineInfo>, i: nat, st: Mode)
    requires !st.inCode && st.inTable && i < |infos| && !infos[i].fence && infos[i].header.Some?
    ensures ParseFrom(infos, i, st)
      == [Header(infos[i].header.value.0, infos[i].header.value.1)] + ParseFrom(infos, i + 1, st)
  {
  }

  /** `[cell.strip() for cell in line.split('|') if cell.strip()]` */
  function Cells(line: string): (cells: seq<string>)
    ensures forall k :: 0 <= k < |cells| ==> cells[k] != [] && !IsSpace(cells[k][0])
  {
    StrippedCells(SplitBy(line, {'|'}))
  }

  /** The stripped pieces that are not empty, in order. */
  function StrippedCells(pieces: seq<string>): (cells: seq<string>)
    ensures |cells| <= |pieces|
    ensures forall k :: 0 <= k < |cells| ==> cells[k] != [] && !IsSpace(cells[k][0])
  {
    if pieces == [] then []
    else
      var c := Strip(pieces[0]);
      if c == [] then StrippedCells(pieces[1..]) else [c] + StrippedCells(pieces[1..])
  }

  /** A piece between bars gives the cell `c` when it is not blank. */
  predicate PieceCell(p: string, c: string) { Strip(p) != [] && c == Strip(p) }

  /** The cells of consecutive pieces are the cells of each part, in order. */
  lemma {:induction false} StrippedCellsAppend(a: seq<string>, b: seq<string>)
    ensures StrippedCells(a + b) == StrippedCells(a) + StrippedCells(b)
    decreases |a|
  {
    if a == [] {
      assert a + b == b;
    } else {
      assert (a + b)[0] == a[0];
      assert (a + b)[1..] == a[1..] + b;
      StrippedCellsAppend(a[1..], b);
    }
  }

  /** A blank piece gives no cell; any other piece gives its stripped text. */
  lemma StrippedCellsOne(p: string)
    ensures StrippedCells([p]) == if Strip(p) == [] then [] else [Strip(p)]
  {
    assert [p][1..] == [];
  }

  /** Every cell is a stripped non-blank piece, and every non-blank piece gives a cell. */
  lemma {:induction false} StrippedCellsMembers(pieces: seq<string>, c: string)
    ensures c in StrippedCells(pieces) <==> exists i :: 0 <= i < |pieces| && PieceCell(pieces[i], c)
    decreases |pieces|
  {
    if pieces != [] {
      var rest := pieces[1..];
      StrippedCellsMembers(rest, c);
      if c in StrippedCells(pieces) {
        if !PieceCell(pieces[0], c) {
          assert c in StrippedCells(rest);
          var i :| 0 <= i < |rest| && PieceCell(rest[i], c);
          assert PieceCell(pieces[i + 1], c);
        }
      }
      if exists i :: 0 <= i < |pieces| && PieceCell(pieces[i], c) {
        var i :| 0 <= i < |pieces| && PieceCell(pieces[i], c);
        if i > 0 {
          assert PieceCell(rest[i - 1], c);
        }
      }
    }
  }
}
