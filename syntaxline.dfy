/**
 * The line scanners of `syntax_highlighter.py`'s syntax-file reader: each
 * one of the regular expressions the reader matches a line against, as an
 * index-based scan, with the shape of the lines it accepts.
 */
module SyntaxLine {
  import opened Wrappers
  import opened Text

  /** Which colour a `tag.<t>.fg` or `tag.<t>.bg` line sets. */
  datatype Layer = Fg | Bg

  /** `[^.=\s]`, the characters of a regex token name. */
  predicate TokenChar(c: char) { c != '.' && c != '=' && !IsSpace(c) }

  /** `[^.\s]`, the characters of a tag name. */
  predicate TagChar(c: char) { c != '.' && !IsSpace(c) }

  /** `[A-Za-z0-9_]`, the characters of a keyword-list name. */
  predicate WordChar(c: char) { ('A' <= c <= 'Z') || ('a' <= c <= 'z') || IsDigit(c) || c == '_' }

  /** The character classes the line patterns repeat. */
  datatype Class = Space | Token | TagName | Word

  predicate InClass(c: char, cls: Class) {
    match cls
    case Space => IsSpace(c)
    case Token => TokenChar(c)
    case TagName => TagChar(c)
    case Word => WordChar(c)
  }

  /**
   * Where a greedy run of `cls` characters that starts at `from` stops: the
   * first index at or after `from` whose character is not in the class, or
   * the end of the line.
   */
  function RunEnd(s: string, from: nat, cls: Class): (r: nat)
    requires from <= |s|
    ensures from <= r <= |s|
    decreases |s| - from
  {
    if from < |s| && InClass(s[from], cls) then RunEnd(s, from + 1, cls) else from
  }

  /** The run from `from` is made of characters of the class and stops at one outside it or at the end. */
  lemma {:induction false} RunEndRun(s: string, from: nat, cls: Class)
    requires from <= |s|
    ensures forall k :: from <= k < RunEnd(s, from, cls) ==> InClass(s[k], cls)
    ensures RunEnd(s, from, cls) < |s| ==> !InClass(s[RunEnd(s, from, cls)], cls)
    decreases |s| - from
  {
    if from < |s| && InClass(s[from], cls) {
      RunEndRun(s, from + 1, cls);
    }
  }

  /** The run ends at the only index where the class holds before and fails (or the line ends) at it. */
  lemma {:induction false} RunEndAt(s: string, from: nat, cls: Class, r: nat)
    requires from <= r <= |s| && (forall k :: from <= k < r ==> InClass(s[k], cls))
    requires r < |s| ==> !InClass(s[r], cls)
    ensures RunEnd(s, from, cls) == r
    decreases r - from
  {
    if from < r {
      RunEndAt(s, from + 1, cls, r);
    }
  }

  /** No newline from index `j` to the end of the line. */
  predicate OneLine(line: string, j: nat) {
    forall k :: j <= k < |line| ==> line[k] != '\n'
  }

  /**
   * `\s*=\s*(.*)$` matched from index `from` of `line`: where the captured
   * value starts. `.` stops at a newline and the line carries no trailing
   * one, so a newline in the value makes the match fail.
   */
  function ValueStart(line: string, from: nat): (r: Option<nat>)
    requires from <= |line|
    ensures r.Some? ==> from < r.value <= |line|
  {
    var i := RunEnd(line, from, Space);
    if i < |line| && line[i] == '=' then
      var j := RunEnd(line, i + 1, Space);
      if OneLine(line, j) then Some(j) else None
    else None
  }

  /** `re.match(r'^<key>\s*=\s*(.*)$', line, flags=re.I)` for an ASCII `key` without `s`, `k` or `i`. */
  function KeyValue(line: string, key: string): Option<string>
  {
    if |key| <= |line| && LowerStr(line[..|key|]) == key then
      match ValueStart(line, |key|)
      case None => None
      case Some(j) => Some(line[j..])
    else None
  }

  /** `re.match(r'^\s*regex\.([^.=\s]+)_RE\s*=\s*(.*)$', line)` */
  function RegexLine(line: string): (r: Option<(string, string)>)
    ensures r.Some? ==> r.value.0 != [] && forall k :: 0 <= k < |r.value.0| ==> TokenChar(r.value.0[k])
  {
    var w := RunEnd(line, 0, Space);
    if OccursAt(line, "regex.", w) then
      var t := RunEnd(line, w + 6, Token);
      if t >= w + 10 && OccursAt(line, "_RE", t - 3) then
        match ValueStart(line, t)
        case None => None
        case Some(j) =>
          RunEndRun(line, w + 6, Token);
          Some((line[w + 6..t - 3], line[j..]))
      else None
    else None
  }

  /** The layer a `.fg` or `.bg` suffix at `t` names. */
  function LayerAt(line: string, t: nat): Option<Layer>
  {
    if OccursAt(line, ".fg", t) then Some(Fg)
    else if OccursAt(line, ".bg", t) then Some(Bg)
    else None
  }

  /** `re.match(r'^\s*tag\.([^.\s]+)\.(fg|bg)\s*=\s*(.*)$', line)` */
  function TagLine(line: string): Option<(string, Layer, string)>
  {
    var w := RunEnd(line, 0, Space);
    if OccursAt(line, "tag.", w) then
      var t := RunEnd(line, w + 4, TagName);
      if t > w + 4 && LayerAt(line, t).Some? then
        match ValueStart(line, t + 3)
        case None => None
        case Some(j) => Some((line[w + 4..t], LayerAt(line, t).value, line[j..]))
      else None
    else None
  }

  /** `re.match(r'^\s*([A-Za-z0-9_]+)\.csv\s*=\s*(.*)$', line)` */
  function CsvLine(line: string): Option<(string, string)>
  {
    var w := RunEnd(line, 0, Space);
    var t := RunEnd(line, w, Word);
    if t > w && OccursAt(line, ".csv", t) then
      match ValueStart(line, t + 4)
      case None => None
      case Some(j) => Some((line[w..t], line[j..]))
    else None
  }

  /**
   * `\s*=\s*(.*)$` as Python matches it from index `from`: whitespace up to
   * the `=` at `i`, then whitespace up to `j`, where the greedy `\s*` stops,
   * and no newline from `j` on.
   */
  predicate AssignAt(line: string, from: nat, i: nat, j: nat) {
    from <= i < j <= |line| && line[i] == '='
    && (forall k :: from <= k < i ==> IsSpace(line[k]))
    && (forall k :: i < k < j ==> IsSpace(line[k]))
    && (j < |line| ==> !IsSpace(line[j]))
    && OneLine(line, j)
  }

  /** The assignment pattern matches exactly where the scanner finds a value, and the value starts at `j`. */
  lemma AssignAtValue(line: string, from: nat, i: nat, j: nat)
    requires AssignAt(line, from, i, j)
    ensures ValueStart(line, from) == Some(j)
  {
    RunEndAt(line, from, Space, i);
    RunEndAt(line, i + 1, Space, j);
  }

  /** Where the scanner finds a value, the assignment pattern matches. */
  lemma ValueAssignAt(line: string, from: nat) returns (i: nat, j: nat)
    requires from <= |line| && ValueStart(line, from).Some?
    ensures AssignAt(line, from, i, j) && ValueStart(line, from) == Some(j)
  {
    i := RunEnd(line, from, Space);
    j := RunEnd(line, i + 1, Space);
    RunEndRun(line, from, Space);
    RunEndRun(line, i + 1, Space);
  }

  /**
   * `^<key>\s*=\s*(.*)$` with `re.I`: the line starts with `key` in either
   * case, then an assignment.
   */
  predicate KeyShape(line: string, key: string, i: nat, j: nat) {
    |key| <= |line| && (forall k :: 0 <= k < |key| ==> Lower(line[k]) == key[k])
    && AssignAt(line, |key|, i, j)
  }

  /** A `name` or `detect.ext` line is exactly one of that shape; its value is the text after the `=` and the whitespace. */
  lemma KeyValueRecognition(line: string, key: string)
    ensures KeyValue(line, key).Some? <==> exists i: nat, j: nat :: KeyShape(line, key, i, j)
    ensures forall i: nat, j: nat :: KeyShape(line, key, i, j) ==> KeyValue(line, key) == Some(line[j..])
  {
    if KeyValue(line, key).Some? {
      assert forall k :: 0 <= k < |key| ==> Lower(line[k]) == LowerStr(line[..|key|])[k];
      var i, j := ValueAssignAt(line, |key|);
      assert KeyShape(line, key, i, j);
    }
    forall i: nat, j: nat | KeyShape(line, key, i, j)
      ensures KeyValue(line, key) == Some(line[j..])
    {
      assert LowerStr(line[..|key|]) == key;
      AssignAtValue(line, |key|, i, j);
    }
  }

  /** The `name` key is anchored at the start of the line: an indented `name = x` is not a name line. */
  lemma IndentedNameIgnored(line: string)
    requires line != [] && IsSpace(line[0])
    ensures KeyValue(line, "name").None?
  {
    if |line| >= 4 {
      assert LowerStr(line[..4])[0] == Lower(line[0]);
    }
  }

  /** The first `p` characters from `w` on are `p`; the first of them is `p[0]`. */
  lemma OccursFirst(line: string, p: string, w: nat)
    requires p != [] && OccursAt(line, p, w)
    ensures line[w] == p[0]
  {
    assert line[w..w + |p|][0] == line[w];
  }

  /** Leading whitespace up to a word that starts with a non-space: the whitespace run ends at `w`. */
  lemma Indent(line: string, w: nat, word: string)
    requires word != [] && !IsSpace(word[0])
    requires OccursAt(line, word, w) && forall k :: 0 <= k < w ==> IsSpace(line[k])
    ensures RunEnd(line, 0, Space) == w
  {
    OccursFirst(line, word, w);
    RunEndAt(line, 0, Space, w);
  }

  /**
   * `^\s*regex\.([^.=\s]+)_RE\s*=\s*(.*)$`: `w` spaces, `regex.`, a token,
   * `_RE` ending at `t`, then an assignment.
   */
  predicate RegexShape(line: string, w: nat, t: nat, i: nat, j: nat) {
    w + 10 <= t <= |line|
    && (forall k :: 0 <= k < w ==> IsSpace(line[k]))
    && OccursAt(line, "regex.", w)
    && (forall k :: w + 6 <= k < t - 3 ==> TokenChar(line[k]))
    && OccursAt(line, "_RE", t - 3)
    && AssignAt(line, t, i, j)
  }

  /** The regex scanner's result once its runs and the value are known. */
  lemma RegexLineOf(line: string, w: nat, t: nat, j: nat)
    requires w <= |line| && RunEnd(line, 0, Space) == w && OccursAt(line, "regex.", w)
    requires RunEnd(line, w + 6, Token) == t && t >= w + 10 && OccursAt(line, "_RE", t - 3)
    requires ValueStart(line, t) == Some(j)
    ensures RegexLine(line) == Some((line[w + 6..t - 3], line[j..]))
  {
  }

  /** Any match of the regex pattern yields its token and the text after the `=` and the whitespace. */
  lemma RegexShapeMatch(line: string, w: nat, t: nat, i: nat, j: nat)
    requires RegexShape(line, w, t, i, j)
    ensures RegexLine(line) == Some((line[w + 6..t - 3], line[j..]))
  {
    RegexShapeIndent(line, w, t, i, j);
    RegexShapeToken(line, w, t, i, j);
    AssignAtValue(line, t, i, j);
    RegexLineOf(line, w, t, j);
  }

  lemma RegexShapeIndent(line: string, w: nat, t: nat, i: nat, j: nat)
    requires RegexShape(line, w, t, i, j)
    ensures RunEnd(line, 0, Space) == w
  {
    OccursFirst(line, "regex.", w);
    RunEndAt(line, 0, Space, w);
  }

  /** The token run goes on through `_RE`, which is made of token characters, and stops at `t`. */
  lemma RegexShapeToken(line: string, w: nat, t: nat, i: nat, j: nat)
    requires RegexShape(line, w, t, i, j)
    ensures RunEnd(line, w + 6, Token) == t
  {
    forall k | t - 3 <= k < t
      ensures TokenChar(line[k])
    {
      assert line[k] == line[t - 3..t][k - (t - 3)];
    }
    RunEndAt(line, w + 6, Token, t);
  }

  /** A line the regex scanner accepts has the pattern's shape. */
  lemma RegexShapeOf(line: string) returns (w: nat, t: nat, i: nat, j: nat)
    requires RegexLine(line).Some?
    ensures RegexShape(line, w, t, i, j)
  {
    w := RunEnd(line, 0, Space);
    t := RunEnd(line, w + 6, Token);
    assert OccursAt(line, "regex.", w) && w + 10 <= t && OccursAt(line, "_RE", t - 3) && ValueStart(line, t).Some?;
    i, j := ValueAssignAt(line, t);
    RegexShapeFrom(line, w, t, i, j);
  }

  /** The scanner's runs and the assignment it finds make up the pattern's shape. */
  lemma RegexShapeFrom(line: string, w: nat, t: nat, i: nat, j: nat)
    requires w <= |line| && w == RunEnd(line, 0, Space) && OccursAt(line, "regex.", w)
    requires t == RunEnd(line, w + 6, Token) && w + 10 <= t && OccursAt(line, "_RE", t - 3)
    requires AssignAt(line, t, i, j)
    ensures RegexShape(line, w, t, i, j)
  {
    RunEndRun(line, 0, Space);
    RunEndRun(line, w + 6, Token);
  }

  /** A line is a regex line exactly when it has the pattern's shape. */
  lemma RegexRecognition(line: string)
    ensures RegexLine(line).Some? <==> exists w: nat, t: nat, i: nat, j: nat :: RegexShape(line, w, t, i, j)
    ensures forall w: nat, t: nat, i: nat, j: nat :: RegexShape(line, w, t, i, j) ==>
      RegexLine(line) == Some((line[w + 6..t - 3], line[j..]))
  {
    if RegexLine(line).Some? {
      var w, t, i, j := RegexShapeOf(line);
    }
    forall w: nat, t: nat, i: nat, j: nat | RegexShape(line, w, t, i, j)
      ensures RegexLine(line) == Some((line[w + 6..t - 3], line[j..]))
    {
      RegexShapeMatch(line, w, t, i, j);
    }
  }

  /** The parts of `a + b + c + d + e` sit where their lengths put them. */
  lemma SplitParts(a: string, b: string, c: string, d: string, e: string)
    ensures var s := a + b + c + d + e;
      s[..|a|] == a && s[|a|..|a| + |b|] == b && s[|a| + |b|..|a| + |b| + |c|] == c
      && s[|a| + |b| + |c|..|a| + |b| + |c| + |d|] == d && s[|a| + |b| + |c| + |d|..] == e
  {
  }

  /** `regex.<token>_RE = <pattern>` defines the rule `token` with that pattern. */
  lemma RegexAssignment(tok: string, p: string)
    requires tok != [] && forall k :: 0 <= k < |tok| ==> TokenChar(tok[k])
    requires '\n' !in p && (p != [] ==> !IsSpace(p[0]))
    ensures RegexLine("regex." + tok + "_RE" + " = " + p) == Some((tok, p))
  {
    var line := "regex." + tok + "_RE" + " = " + p;
    var t := |tok| + 9;
    RegexAssignmentParts(tok, p, t);
    RegexLineFromShape(line, tok, p, t);
  }

  lemma RegexLineFromShape(line: string, tok: string, p: string, t: nat)
    requires RegexShape(line, 0, t, t + 1, t + 3) && line[0 + 6..t - 3] == tok && line[t + 3..] == p
    ensures RegexLine(line) == Some((tok, p))
  {
    RegexShapeMatch(line, 0, t, t + 1, t + 3);
  }

  lemma RegexAssignmentParts(tok: string, p: string, t: nat)
    requires tok != [] && t == |tok| + 9 && forall k :: 0 <= k < |tok| ==> TokenChar(tok[k])
    requires '\n' !in p && (p != [] ==> !IsSpace(p[0]))
    ensures var line := "regex." + tok + "_RE" + " = " + p;
      RegexShape(line, 0, t, t + 1, t + 3) && line[0 + 6..t - 3] == tok && line[t + 3..] == p
  {
    var line := "regex." + tok + "_RE" + " = " + p;
    SplitParts("regex.", tok, "_RE", " = ", p);
    assert OccursAt(line, "regex.", 0) && OccursAt(line, "_RE", t - 3);
    assert forall k :: 0 + 6 <= k < t - 3 ==> TokenChar(line[k]);
    assert AssignAt(line, t, t + 1, t + 3);
  }

  /** `regex.KEYWORD_RE = p` defines the rule `KEYWORD` with pattern `p`. */
  lemma KeywordRegexLine(p: string)
    requires '\n' !in p && (p != [] ==> !IsSpace(p[0]))
    ensures RegexLine("regex." + "KEYWORD" + "_RE" + " = " + p) == Some(("KEYWORD", p))
  {
    RegexAssignment("KEYWORD", p);
  }

  /** The suffix naming a layer. */
  function LayerSuffix(layer: Layer): string {
    if layer == Fg then ".fg" else ".bg"
  }

  /**
   * `^\s*tag\.([^.\s]+)\.(fg|bg)\s*=\s*(.*)$`: `w` spaces, `tag.`, a tag name
   * ending at `t`, `.fg` or `.bg`, then an assignment.
   */
  predicate TagShape(line: string, w: nat, t: nat, layer: Layer, i: nat, j: nat) {
    w + 4 < t && t + 3 <= |line|
    && (forall k :: 0 <= k < w ==> IsSpace(line[k]))
    && OccursAt(line, "tag.", w)
    && (forall k :: w + 4 <= k < t ==> TagChar(line[k]))
    && OccursAt(line, LayerSuffix(layer), t)
    && AssignAt(line, t + 3, i, j)
  }

  /** The tag scanner's result once its runs, the layer and the value are known. */
  lemma TagLineOf(line: string, w: nat, t: nat, layer: Layer, j: nat)
    requires w <= |line| && RunEnd(line, 0, Space) == w && OccursAt(line, "tag.", w)
    requires RunEnd(line, w + 4, TagName) == t && t > w + 4
    requires LayerAt(line, t) == Some(layer) && ValueStart(line, t + 3) == Some(j)
    ensures TagLine(line) == Some((line[w + 4..t], layer, line[j..]))
  {
  }

  /** A layer suffix at `t` is found by the scanner as that layer. */
  lemma LayerSuffixAt(line: string, t: nat, layer: Layer)
    requires OccursAt(line, LayerSuffix(layer), t)
    ensures LayerAt(line, t) == Some(layer) && line[t] == '.'
  {
    assert line[t] == line[t..t + 3][0];
    if layer == Bg {
      assert line[t + 1] == line[t..t + 3][1];
    }
  }

  /** Any match of the tag pattern yields its tag name, its layer and the text after the `=` and the whitespace. */
  lemma TagShapeMatch(line: string, w: nat, t: nat, layer: Layer, i: nat, j: nat)
    requires TagShape(line, w, t, layer, i, j)
    ensures TagLine(line) == Some((line[w + 4..t], layer, line[j..]))
  {
    TagShapeRuns(line, w, t, layer, i, j);
    TagLineOf(line, w, t, layer, j);
  }

  /** Where the scanner's runs end, which layer it reads and where it finds the value on a line of the tag pattern's shape. */
  lemma TagShapeRuns(line: string, w: nat, t: nat, layer: Layer, i: nat, j: nat)
    requires TagShape(line, w, t, layer, i, j)
    ensures RunEnd(line, 0, Space) == w && RunEnd(line, w + 4, TagName) == t
    ensures LayerAt(line, t) == Some(layer) && ValueStart(line, t + 3) == Some(j)
  {
    Indent(line, w, "tag.");
    TagNameEnd(line, w, t, layer);
    AssignAtValue(line, t + 3, i, j);
  }

  /** The tag-name run stops at the dot of the layer suffix. */
  lemma TagNameEnd(line: string, w: nat, t: nat, layer: Layer)
    requires w + 4 <= t <= |line| && (forall k :: w + 4 <= k < t ==> TagChar(line[k])) && OccursAt(line, LayerSuffix(layer), t)
    ensures RunEnd(line, w + 4, TagName) == t && LayerAt(line, t) == Some(layer)
  {
    LayerSuffixAt(line, t, layer);
    RunEndAt(line, w + 4, TagName, t);
  }

  /** The layer the scanner reads at `t` is spelled there by its suffix. */
  lemma SuffixOfLayer(line: string, t: nat)
    requires LayerAt(line, t).Some?
    ensures OccursAt(line, LayerSuffix(LayerAt(line, t).value), t)
  {
  }

  /** A line the tag scanner accepts has the pattern's shape. */
  lemma TagShapeOf(line: string) returns (w: nat, t: nat, layer: Layer, i: nat, j: nat)
    requires TagLine(line).Some?
    ensures TagShape(line, w, t, layer, i, j)
  {
    w := RunEnd(line, 0, Space);
    t := RunEnd(line, w + 4, TagName);
    assert OccursAt(line, "tag.", w) && w + 4 < t && LayerAt(line, t).Some? && ValueStart(line, t + 3).Some?;
    layer := LayerAt(line, t).value;
    i, j := ValueAssignAt(line, t + 3);
    TagShapeFrom(line, w, t, layer, i, j);
  }

  /** The scanner's runs, the layer it reads and the assignment it finds make up the pattern's shape. */
  lemma TagShapeFrom(line: string, w: nat, t: nat, layer: Layer, i: nat, j: nat)
    requires w <= |line| && w == RunEnd(line, 0, Space) && OccursAt(line, "tag.", w)
    requires t == RunEnd(line, w + 4, TagName) && w + 4 < t
    requires LayerAt(line, t) == Some(layer) && AssignAt(line, t + 3, i, j)
    ensures TagShape(line, w, t, layer, i, j)
  {
    SuffixOfLayer(line, t);
    RunEndRun(line, 0, Space);
    RunEndRun(line, w + 4, TagName);
  }

  /** A line is a tag line exactly when it has the pattern's shape. */
  lemma TagRecognition(line: string)
    ensures TagLine(line).Some? <==> exists w: nat, t: nat, layer, i: nat, j: nat :: TagShape(line, w, t, layer, i, j)
    ensures forall w: nat, t: nat, layer, i: nat, j: nat :: TagShape(line, w, t, layer, i, j) ==>
      TagLine(line) == Some((line[w + 4..t], layer, line[j..]))
  {
    if TagLine(line).Some? {
      var w, t, layer, i, j := TagShapeOf(line);
    }
    forall w: nat, t: nat, layer, i: nat, j: nat | TagShape(line, w, t, layer, i, j)
      ensures TagLine(line) == Some((line[w + 4..t], layer, line[j..]))
    {
      TagShapeMatch(line, w, t, layer, i, j);
    }
  }

  /** `tag.<name>.fg = <value>` (or `.bg`) sets that colour of the tag `name` to the value. */
  lemma TagAssignment(name: string, layer: Layer, c: string)
    requires name != [] && forall k :: 0 <= k < |name| ==> TagChar(name[k])
    requires '\n' !in c && (c != [] ==> !IsSpace(c[0]))
    ensures TagLine("tag." + name + LayerSuffix(layer) + " = " + c) == Some((name, layer, c))
  {
    var line := "tag." + name + LayerSuffix(layer) + " = " + c;
    var t := |name| + 4;
    TagAssignmentParts(name, layer, c, t);
    TagLineFromShape(line, name, layer, c, t);
  }

  lemma TagLineFromShape(line: string, name: string, layer: Layer, c: string, t: nat)
    requires TagShape(line, 0, t, layer, t + 4, t + 6) && line[0 + 4..t] == name && line[t + 6..] == c
    ensures TagLine(line) == Some((name, layer, c))
  {
    TagShapeMatch(line, 0, t, layer, t + 4, t + 6);
  }

  lemma TagAssignmentParts(name: string, layer: Layer, c: string, t: nat)
    requires name != [] && t == |name| + 4 && forall k :: 0 <= k < |name| ==> TagChar(name[k])
    requires '\n' !in c && (c != [] ==> !IsSpace(c[0]))
    ensures var line := "tag." + name + LayerSuffix(layer) + " = " + c;
      TagShape(line, 0, t, layer, t + 4, t + 6) && line[0 + 4..t] == name && line[t + 6..] == c
  {
    var line := "tag." + name + LayerSuffix(layer) + " = " + c;
    assert |LayerSuffix(layer)| == 3;
    SplitParts("tag.", name, LayerSuffix(layer), " = ", c);
    assert OccursAt(line, "tag.", 0) && OccursAt(line, LayerSuffix(layer), t);
    assert forall k :: 0 + 4 <= k < t ==> TagChar(line[k]);
    assert AssignAt(line, t + 3, t + 4, t + 6);
  }

  /** A tag name may hold `=`: `tag.a=b.fg = c` sets the foreground of tag `a=b`. */
  lemma TagNameWithEquals(c: string)
    requires '\n' !in c && (c != [] ==> !IsSpace(c[0]))
    ensures TagLine("tag." + "a=b" + ".fg" + " = " + c) == Some(("a=b", Fg, c))
  {
    TagAssignment("a=b", Fg, c);
  }

  /**
   * `^\s*([A-Za-z0-9_]+)\.csv\s*=\s*(.*)$`: `w` spaces, a list name of word
   * characters ending at `t`, `.csv`, then an assignment.
   */
  predicate CsvShape(line: string, w: nat, t: nat, i: nat, j: nat) {
    w < t && t + 4 <= |line|
    && (forall k :: 0 <= k < w ==> IsSpace(line[k]))
    && (forall k :: w <= k < t ==> WordChar(line[k]))
    && OccursAt(line, ".csv", t)
    && AssignAt(line, t + 4, i, j)
  }

  /** The list scanner's result once its runs and the value are known. */
  lemma CsvLineOf(line: string, w: nat, t: nat, j: nat)
    requires w <= |line| && RunEnd(line, 0, Space) == w && RunEnd(line, w, Word) == t && t > w
    requires OccursAt(line, ".csv", t) && ValueStart(line, t + 4) == Some(j)
    ensures CsvLine(line) == Some((line[w..t], line[j..]))
  {
  }

  /** Any match of the list pattern yields its list name and the text after the `=` and the whitespace. */
  lemma CsvShapeMatch(line: string, w: nat, t: nat, i: nat, j: nat)
    requires CsvShape(line, w, t, i, j)
    ensures CsvLine(line) == Some((line[w..t], line[j..]))
  {
    CsvShapeRuns(line, w, t, i, j);
    AssignAtValue(line, t + 4, i, j);
    CsvLineOf(line, w, t, j);
  }

  /** The indentation ends at the first word character, and the name run at the dot of `.csv`. */
  lemma CsvShapeRuns(line: string, w: nat, t: nat, i: nat, j: nat)
    requires CsvShape(line, w, t, i, j)
    ensures RunEnd(line, 0, Space) == w && RunEnd(line, w, Word) == t
  {
    assert InClass(line[w], Word);
    RunEndAt(line, 0, Space, w);
    OccursFirst(line, ".csv", t);
    RunEndAt(line, w, Word, t);
  }

  /** A line the list scanner accepts has the pattern's shape. */
  lemma CsvShapeOf(line: string) returns (w: nat, t: nat, i: nat, j: nat)
    requires CsvLine(line).Some?
    ensures CsvShape(line, w, t, i, j)
  {
    w := RunEnd(line, 0, Space);
    t := RunEnd(line, w, Word);
    assert w < t && OccursAt(line, ".csv", t) && ValueStart(line, t + 4).Some?;
    i, j := ValueAssignAt(line, t + 4);
    CsvShapeFrom(line, w, t, i, j);
  }

  /** The scanner's runs and the assignment it finds make up the pattern's shape. */
  lemma CsvShapeFrom(line: string, w: nat, t: nat, i: nat, j: nat)
    requires w <= |line| && w == RunEnd(line, 0, Space) && t == RunEnd(line, w, Word) && w < t
    requires OccursAt(line, ".csv", t) && AssignAt(line, t + 4, i, j)
    ensures CsvShape(line, w, t, i, j)
  {
    RunEndRun(line, 0, Space);
    RunEndRun(line, w, Word);
  }

  /** A line is a keyword-list line exactly when it has the pattern's shape. */
  lemma CsvRecognition(line: string)
    ensures CsvLine(line).Some? <==> exists w: nat, t: nat, i: nat, j: nat :: CsvShape(line, w, t, i, j)
    ensures forall w: nat, t: nat, i: nat, j: nat :: CsvShape(line, w, t, i, j) ==>
      CsvLine(line) == Some((line[w..t], line[j..]))
  {
    if CsvLine(line).Some? {
      var w, t, i, j := CsvShapeOf(line);
    }
    forall w: nat, t: nat, i: nat, j: nat | CsvShape(line, w, t, i, j)
      ensures CsvLine(line) == Some((line[w..t], line[j..]))
    {
      CsvShapeMatch(line, w, t, i, j);
    }
  }
}
