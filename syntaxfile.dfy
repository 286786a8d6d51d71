/**
 * The syntax-definition loader of `syntax_highlighter.py`: the line-based
 * reader of the `[Syntax]` section of an `.ini` file, the compilation of
 * keyword lists into whole-word alternations, and the table of loaded
 * syntaxes keyed by name.
 */
module SyntaxFile {
  import opened Wrappers
  import opened Text
  import opened Ordered
  import opened SyntaxLine

  /** One highlighting rule: a token name and its regular expression, in file order. */
  datatype Rule = Rule(token: string, pattern: string)

  /** The colours given for one tag; `None` where the file gives none. */
  datatype Colors = Colors(fg: Option<string>, bg: Option<string>)

  /** What one line of the section says. */
  datatype Entry =
    | NameEntry(name: string)
    | ExtsEntry(exts: seq<string>)
    | RegexEntry(rule: Rule)
    | TagEntry(tag: string, layer: Layer, value: string)
    | CsvEntry(list: string, value: string)
    | Ignored

  /**
   * What the reader has collected so far. An absent `name` and an empty
   * one behave alike in the source (`if not name`), so both are `[]` here.
   */
  datatype Draft = Draft(name: string, exts: seq<string>, regexes: seq<Rule>,
                         tags: Dict<string, Colors>, csv: Dict<string, string>)

  /** A loaded syntax, as stored in `_syntaxes`. */
  datatype Syntax = Syntax(name: string, exts: seq<string>, regexes: seq<Rule>, tags: Dict<string, Colors>)

  const EmptyDraft := Draft([], [], [], [], [])

  /** The `detect.ext` value: pieces split on `,` or `;`, trimmed, leading dots removed, blank pieces dropped. */
  function ExtList(pieces: seq<string>): (r: seq<string>)
    ensures |r| <= |pieces|
  {
    if pieces == [] then []
    else if Strip(pieces[0]) == [] then ExtList(pieces[1..])
    else [LStripChar(Strip(pieces[0]), '.')] + ExtList(pieces[1..])
  }

  /** The extension of one piece, when the piece is not blank. */
  predicate PieceExt(p: string, e: string)
  {
    Strip(p) != [] && e == LStripChar(Strip(p), '.')
  }

  /** `ExtList` treats the pieces one by one: it distributes over concatenation. */
  lemma {:induction false} ExtListAppend(a: seq<string>, b: seq<string>)
    ensures ExtList(a + b) == ExtList(a) + ExtList(b)
    decreases |a|
  {
    if a == [] {
      assert a + b == b;
    } else {
      assert (a + b)[0] == a[0];
      assert (a + b)[1..] == a[1..] + b;
      ExtListAppend(a[1..], b);
    }
  }

  /** A blank piece contributes nothing; any other piece contributes exactly its extension. */
  lemma ExtListOne(p: string)
    ensures Strip(p) == [] ==> ExtList([p]) == []
    ensures Strip(p) != [] ==> ExtList([p]) == [LStripChar(Strip(p), '.')]
  {
    assert [p][1..] == [];
  }

  /** Every listed extension comes from a non-blank piece, and every non-blank piece is listed. */
  lemma {:induction false} ExtListMembers(pieces: seq<string>, e: string)
    ensures e in ExtList(pieces) <==> exists i :: 0 <= i < |pieces| && PieceExt(pieces[i], e)
    decreases |pieces|
  {
    if pieces != [] {
      var rest := pieces[1..];
      ExtListMembers(rest, e);
      if e in ExtList(pieces) {
        if PieceExt(pieces[0], e) {
        } else {
          assert e in ExtList(rest);
          var i :| 0 <= i < |rest| && PieceExt(rest[i], e);
          assert PieceExt(pieces[i + 1], e);
        }
      }
      if exists i :: 0 <= i < |pieces| && PieceExt(pieces[i], e) {
        var i :| 0 <= i < |pieces| && PieceExt(pieces[i], e);
        if i > 0 {
          assert PieceExt(rest[i - 1], e);
        }
      }
    }
  }

  /** The extension of a non-blank piece neither starts with a dot nor ends in a space. */
  lemma PieceExtClean(p: string)
    requires Strip(p) != []
    ensures var e := LStripChar(Strip(p), '.'); e != [] ==> e[0] != '.' && !IsSpace(e[|e| - 1])
  {
    var s := Strip(p);
    var e := LStripChar(s, '.');
    if e != [] {
      if |e| < |s| {
        assert e == s[|s| - |e|..];
      }
      assert e[|e| - 1] == s[|s| - 1];
    }
  }

  /** Prepending a clean extension to clean extensions keeps them clean. */
  lemma CleanCons(e: string, rest: seq<string>)
    requires e != [] ==> e[0] != '.' && !IsSpace(e[|e| - 1])
    requires forall k :: 0 <= k < |rest| ==> var x := rest[k]; x != [] ==> x[0] != '.' && !IsSpace(x[|x| - 1])
    ensures forall k :: 0 <= k < |[e] + rest| ==> var x := ([e] + rest)[k]; x != [] ==> x[0] != '.' && !IsSpace(x[|x| - 1])
  {
    forall k | 0 <= k < |[e] + rest|
      ensures var x := ([e] + rest)[k]; x != [] ==> x[0] != '.' && !IsSpace(x[|x| - 1])
    {
      if k > 0 { assert ([e] + rest)[k] == rest[k - 1]; }
    }
  }

  /** No listed extension starts with a dot or a space, and no piece yields more than one extension. */
  lemma {:induction false} ExtListClean(pieces: seq<string>)
    ensures |ExtList(pieces)| <= |pieces|
    ensures forall k :: 0 <= k < |ExtList(pieces)| ==>
      var e := ExtList(pieces)[k]; e != [] ==> e[0] != '.' && !IsSpace(e[|e| - 1])
    decreases |pieces|
  {
    if pieces != [] {
      ExtListClean(pieces[1..]);
      if Strip(pieces[0]) != [] {
        PieceExtClean(pieces[0]);
        CleanCons(LStripChar(Strip(pieces[0]), '.'), ExtList(pieces[1..]));
      }
    }
  }

  /** A pattern wrapped whole in matching quotes loses its first and last characters. */
  function Unquote(p: string): (r: string)
    ensures |r| <= |p|
  {
    if |p| >= 1 && ((p[0] == '"' && p[|p| - 1] == '"') || (p[0] == '\'' && p[|p| - 1] == '\'')) then
      if |p| >= 2 then p[1..|p| - 1] else []
    else p
  }

  /** A line with nothing to read: blank, or a `;` or `#` comment. */
  predicate Skipped(s: string) {
    s == [] || s[0] == ';' || s[0] == '#'
  }

  /**
   * The recognisers of a section line, in the order the loader tries them:
   * `name`, `detect.ext`, a regex rule, a tag colour, a keyword list.
   * `unraw` stands for the two `re.sub` calls that unwrap `R"..."` and
   * `R'...'` fragments.
   */
  function Recognise(line: string, k: nat, unraw: string -> string): Option<Entry>
  {
    if k == 0 then
      match KeyValue(line, "name")
      case None => None
      case Some(v) => Some(NameEntry(Strip(v)))
    else if k == 1 then
      match KeyValue(line, "detect.ext")
      case None => None
      case Some(v) => Some(ExtsEntry(ExtList(SplitBy(Strip(v), {',', ';'}))))
    else if k == 2 then
      match RegexLine(line)
      case None => None
      case Some((token, v)) => Some(RegexEntry(Rule(token, Unquote(unraw(RStrip(v))))))
    else if k == 3 then
      match TagLine(line)
      case None => None
      case Some((tag, layer, v)) => Some(TagEntry(tag, layer, Strip(v)))
    else if k == 4 then
      match CsvLine(line)
      case None => None
      case Some((list, v)) => Some(CsvEntry(list, Strip(v)))
    else None
  }

  /** The entry of the first recogniser from `k` on that accepts the line. */
  function RecogniseFrom(line: string, k: nat, unraw: string -> string): Entry
    decreases |line| + 5 - k, 1
  {
    RecogniseStep(line, k, unraw)
  }

  /** Recogniser `k` if it accepts the line, the later ones otherwise. */
  function RecogniseStep(line: string, k: nat, unraw: string -> string): Entry
    decreases |line| + 5 - k, 0
  {
    if k >= 5 then Ignored
    else match Recognise(line, k, unraw)
      case Some(e) => e
      case None => RecogniseFrom(line, k + 1, unraw)
  }

  /** The meaning of one line inside the section. */
  function ClassifyLine(line: string, unraw: string -> string): (e: Entry)
    ensures Skipped(Strip(line)) ==> e == Ignored
  {
    if Skipped(Strip(line)) then Ignored else RecogniseFrom(line, 0, unraw)
  }

  /** The colours of `tag` after one more `fg` or `bg` line (`tags.setdefault(t, {})[which] = val`). */
  function SetColor(tags: Dict<string, Colors>, tag: string, layer: Layer, value: string): Dict<string, Colors>
  {
    var c := match Get(tags, tag) case None => Colors(None, None) case Some(c) => c;
    Put(tags, tag, if layer == Fg then c.(fg := Some(value)) else c.(bg := Some(value)))
  }

  /** The effect of one entry: the last `name`, `detect.ext`, colour or list wins; rules accumulate. */
  function Apply(d: Draft, e: Entry): Draft
  {
    match e
    case NameEntry(n) => d.(name := n)
    case ExtsEntry(x) => d.(exts := x)
    case RegexEntry(r) => d.(regexes := d.regexes + [r])
    case TagEntry(t, layer, v) => d.(tags := SetColor(d.tags, t, layer, v))
    case CsvEntry(t, v) => d.(csv := Put(d.csv, t, v))
    case Ignored => d
  }

  /** The line as read: `raw.rstrip('\n')`. */
  function LineOf(raw: string): string { RStripChar(raw, '\n') }

  /** The entries of the lines, in order. */
  function Entries(raws: seq<string>, unraw: string -> string): (es: seq<Entry>)
    ensures |es| == |raws|
  {
    seq(|raws|, k requires 0 <= k < |raws| => ClassifyLine(LineOf(raws[k]), unraw))
  }

  /** Applying entries in order, starting from `d`. */
  function Fold(d: Draft, es: seq<Entry>): Draft
  {
    if es == [] then d else Apply(Fold(d, es[..|es| - 1]), es[|es| - 1])
  }

  /** Folding one more entry of a range applies it. */
  lemma FoldSnoc(d: Draft, es: seq<Entry>, lo: nat, hi: nat)
    requires lo <= hi < |es|
    ensures Fold(d, es[lo..hi + 1]) == Apply(Fold(d, es[lo..hi]), es[hi])
  {
    assert es[lo..hi + 1][..hi - lo] == es[lo..hi];
  }

  /** The stripped line: `raw.rstrip('\n').strip()`. */
  function Trimmed(raw: string): string { Strip(LineOf(raw)) }

  /** The stripped form of every line. */
  function TrimAll(raws: seq<string>): (ts: seq<string>)
    ensures |ts| == |raws|
  {
    seq(|raws|, k requires 0 <= k < |raws| => Trimmed(raws[k]))
  }

  /** A stripped line that starts with `[`. */
  predicate Bracket(s: string) { StartsWith(s, "[") }

  /** The section header: a `[` line whose lower-cased form starts with `[syntax`. */
  predicate Header(s: string) { Bracket(s) && StartsWith(LowerStr(s), "[syntax") }

  /** The index of the first header among the stripped lines `ts`, at or after `from`. */
  function FindHeader(ts: seq<string>, from: nat): (r: Option<nat>)
    decreases |ts| - from
    ensures r.Some? ==> from <= r.value < |ts| && Header(ts[r.value])
                        && forall k :: from <= k < r.value ==> !Header(ts[k])
    ensures r.None? ==> forall k :: from <= k < |ts| ==> !Header(ts[k])
  {
    if from >= |ts| then None
    else if Header(ts[from]) then Some(from)
    else FindHeader(ts, from + 1)
  }

  /** The index of the first `[` line at or after `from`, or the end. */
  function SectionEnd(ts: seq<string>, from: nat): (r: nat)
    requires from <= |ts|
    decreases |ts| - from
    ensures from <= r <= |ts| && (r < |ts| ==> Bracket(ts[r]))
    ensures forall k :: from <= k < r ==> !Bracket(ts[k])
  {
    if from == |ts| || Bracket(ts[from]) then from else SectionEnd(ts, from + 1)
  }

  /**
   * What a file yields, given the stripped form `ts` and the entry `es` of
   * each of its lines: the entries of the lines after the first header, up
   * to the next `[` line, applied in order.
   */
  function ReadSection(ts: seq<string>, es: seq<Entry>): Draft
    requires |es| == |ts|
  {
    match FindHeader(ts, 0)
    case None => EmptyDraft
    case Some(h) => Fold(EmptyDraft, es[h + 1..SectionEnd(ts, h + 1)])
  }

  /** What a whole file yields. */
  function ReadFile(raws: seq<string>, unraw: string -> string): Draft
  {
    ReadSection(TrimAll(raws), Entries(raws, unraw))
  }

  /** The entry of a line is its classification. */
  lemma EntryAt(raws: seq<string>, unraw: string -> string, i: nat)
    requires i < |raws|
    ensures Entries(raws, unraw)[i] == ClassifyLine(LineOf(raws[i]), unraw)
  {
  }

  /**
   * The reading loop as a function of what remains: lines from `i` on,
   * whether the section has been entered, and the draft so far. A blank or
   * comment line classifies as `Ignored`, so applying its entry is the
   * same as skipping it.
   */
  function Scan(ts: seq<string>, es: seq<Entry>, i: nat, inSyntax: bool, d: Draft): Draft
    requires |es| == |ts|
    decreases |ts| - i
  {
    if i >= |ts| then d
    else if !inSyntax then Scan(ts, es, i + 1, Header(ts[i]), d)
    else if Bracket(ts[i]) then d
    else Scan(ts, es, i + 1, true, Apply(d, es[i]))
  }

  /** Inside the section, the loop applies the rest of the section's entries. */
  lemma {:induction false} ScanInside(ts: seq<string>, es: seq<Entry>, h: nat, i: nat, d: Draft)
    requires |es| == |ts| && h < i <= |ts|
    requires SectionEnd(ts, h + 1) == SectionEnd(ts, i)
    requires d == Fold(EmptyDraft, es[h + 1..i])
    ensures Scan(ts, es, i, true, d) == Fold(EmptyDraft, es[h + 1..SectionEnd(ts, h + 1)])
    decreases |ts| - i
  {
    if i < |ts| && !Bracket(ts[i]) {
      FoldSnoc(EmptyDraft, es, h + 1, i);
      ScanInside(ts, es, h, i + 1, Apply(d, es[i]));
    }
  }

  /** Right after the header, the loop reads exactly what the file yields. */
  lemma ScanSection(ts: seq<string>, es: seq<Entry>, h: nat)
    requires |es| == |ts| && FindHeader(ts, 0) == Some(h)
    ensures Scan(ts, es, h + 1, true, EmptyDraft) == ReadSection(ts, es)
  {
    assert es[h + 1..h + 1] == [];
    ScanInside(ts, es, h, h + 1, EmptyDraft);
  }

  /** Before the section, the loop skips to the line after the header, or reads nothing. */
  lemma {:induction false} ScanBefore(ts: seq<string>, es: seq<Entry>, i: nat)
    requires |es| == |ts| && i <= |ts|
    ensures Scan(ts, es, i, false, EmptyDraft) == match FindHeader(ts, i)
      case None => EmptyDraft
      case Some(h) => Scan(ts, es, h + 1, true, EmptyDraft)
    decreases |ts| - i
  {
    if i < |ts| {
      ScanBefore(ts, es, i + 1);
    }
  }

  /** The loop, run over the whole file, reads what the file yields. */
  lemma ScanReads(ts: seq<string>, es: seq<Entry>)
    requires |es| == |ts|
    ensures Scan(ts, es, 0, false, EmptyDraft) == ReadSection(ts, es)
  {
    ScanBefore(ts, es, 0);
    if FindHeader(ts, 0).Some? {
      ScanSection(ts, es, FindHeader(ts, 0).value);
    }
  }

  /** The reading loop of `_load_all_syntaxes` for one file. */
  method ReadSyntaxFile(raws: seq<string>, unraw: string -> string) returns (d: Draft)
    ensures d == ReadFile(raws, unraw)
  {
    d := EmptyDraft;
    var inSyntax := false;
    var i := 0;
    ghost var ts := TrimAll(raws);
    ghost var es := Entries(raws, unraw);
    ScanReads(ts, es);
    while i < |raws|
      invariant i <= |raws|
      invariant Scan(ts, es, i, inSyntax, d) == ReadSection(ts, es)
    {
      var line := LineOf(raws[i]);
      var s := Strip(line);
      assert s == ts[i];
      if !inSyntax {
        if StartsWith(s, "[") && StartsWith(LowerStr(s), "[syntax") {
          inSyntax := true;
        }
        i := i + 1;
        continue;
      }
      if StartsWith(s, "[") {
        break;
      }
      EntryAt(raws, unraw, i);
      if !Skipped(s) {
        d := Apply(d, ClassifyLine(line, unraw));
      }
      i := i + 1;
    }
  }

  /** The ASCII characters `re.escape` puts a backslash before. */
  predicate Special(c: char) {
    c == '(' || c == ')' || c == '[' || c == ']' || c == '{' || c == '}' || c == '?' || c == '*'
    || c == '+' || c == '-' || c == '|' || c == '^' || c == '$' || c == '\\' || c == '.' || c == '&'
    || c == '~' || c == '#' || c == ' ' || ('\t' <= c <= '\r')
  }

  /** One character as `re.escape` writes it. */
  function EscapeChar(c: char): (r: string)
  {
    if Special(c) then ['\\', c] else [c]
  }

  /** `re.escape(w)` */
  function Escape(w: string): (r: string)
    ensures |r| >= |w|
  {
    if w == [] then [] else EscapeChar(w[0]) + Escape(w[1..])
  }

  /** `re.escape` applied to each word. */
  function EscapeAll(ws: seq<string>): (r: seq<string>)
    ensures |r| == |ws|
  {
    if ws == [] then [] else [Escape(ws[0])] + EscapeAll(ws[1..])
  }

  /**
   * The alternatives of a regex body, as the regex engine reads them: an
   * unescaped `|` separates them and a backslash makes the next character
   * literal.
   */
  function Alternatives(s: string): (r: seq<string>)
    ensures |r| >= 1
  {
    if s == [] then [[]]
    else if s[0] == '\\' && |s| >= 2 then
      var r := Alternatives(s[2..]);
      [[s[1]] + r[0]] + r[1..]
    else if s[0] == '|' then [[]] + Alternatives(s[1..])
    else
      var r := Alternatives(s[1..]);
      [[s[0]] + r[0]] + r[1..]
  }

  /** An escaped character is read back as the first character of the first alternative. */
  lemma EscapeCharRead(c: char, s: string)
    ensures Alternatives(EscapeChar(c) + s) == [[c] + Alternatives(s)[0]] + Alternatives(s)[1..]
  {
    if Special(c) {
      assert (['\\', c] + s)[2..] == s;
    } else {
      assert ([c] + s)[1..] == s;
    }
  }

  /** Prefixing a character to the first of some alternatives. */
  lemma ConsFirst(c: char, v: string, a: seq<string>, r: seq<string>)
    requires |a| >= 1 && r == [v + a[0]] + a[1..]
    ensures [[c] + r[0]] + r[1..] == [([c] + v) + a[0]] + a[1..]
  {
    assert r[0] == v + a[0] && r[1..] == a[1..];
    assert [c] + (v + a[0]) == ([c] + v) + a[0];
  }

  /** An escaped word is read back as the start of the first alternative. */
  lemma {:induction false} EscapeRead(w: string, s: string)
    ensures Alternatives(Escape(w) + s) == [w + Alternatives(s)[0]] + Alternatives(s)[1..]
  {
    var a := Alternatives(s);
    if w == [] {
      assert Escape(w) + s == s;
      assert w + a[0] == a[0] && [a[0]] + a[1..] == a;
    } else {
      var rest := Escape(w[1..]) + s;
      assert Escape(w) + s == EscapeChar(w[0]) + rest;
      EscapeRead(w[1..], s);
      EscapeCharRead(w[0], rest);
      ConsFirst(w[0], w[1..], a, Alternatives(rest));
      assert [w[0]] + w[1..] == w;
    }
  }

  /** Joining escaped words with `|` and reading the alternatives back gives the words. */
  lemma {:induction false} JoinRead(ws: seq<string>)
    requires ws != []
    ensures Alternatives(JoinWith(EscapeAll(ws), '|')) == ws
  {
    var es := EscapeAll(ws);
    if |ws| == 1 {
      EscapeRead(ws[0], []);
      assert Escape(ws[0]) + [] == Escape(ws[0]);
      assert JoinWith(EscapeAll(ws), '|') == Escape(ws[0]);
      assert ws[0] + [] == ws[0] && [ws[0]] == ws;
    } else {
      JoinRead(ws[1..]);
      var tail := JoinWith(es[1..], '|');
      assert es[1..] == EscapeAll(ws[1..]);
      assert JoinWith(es, '|') == Escape(ws[0]) + (['|'] + tail);
      EscapeRead(ws[0], ['|'] + tail);
      assert (['|'] + tail)[1..] == tail;
      var b := Alternatives(['|'] + tail);
      assert b == [[]] + ws[1..];
      assert b[0] == [] && b[1..] == ws[1..];
      assert ws[0] + [] == ws[0];
      assert [ws[0]] + ws[1..] == ws;
    }
  }

  /** `r'\b(?:' + '|'.join(parts) + r')\b'` */
  function CsvPattern(ws: seq<string>): string
  {
    "\\b(?:" + JoinWith(EscapeAll(ws), '|') + ")\\b"
  }

  /** The words of a whole-word alternation, if `p` has that shape. */
  function PatternWords(p: string): Option<seq<string>>
  {
    if |p| >= 8 && p[..5] == "\\b(?:" && p[|p| - 3..] == ")\\b" then Some(Alternatives(p[5..|p| - 3]))
    else None
  }

  /** The pattern of a keyword list is a whole-word alternation of exactly its words. */
  lemma PatternRoundTrip(ws: seq<string>)
    requires ws != []
    ensures PatternWords(CsvPattern(ws)) == Some(ws)
  {
    var body := JoinWith(EscapeAll(ws), '|');
    var p := CsvPattern(ws);
    assert p[..5] == "\\b(?:" && p[|p| - 3..] == ")\\b" && p[5..|p| - 3] == body;
    JoinRead(ws);
  }

  /** The separators of `re.split('[,\s]+', csv)`. */
  predicate CsvSep(c: char) { c == ',' || IsSpace(c) }

  /**
   * The words of a keyword list: the pieces of `re.split('[,\s]+', csv)`
   * that are not empty. Such a piece holds no whitespace, so its
   * `strip()` is the piece itself.
   */
  function CsvWords(csv: string): (ws: seq<string>)
    ensures forall k :: 0 <= k < |ws| ==> ws[k] != [] && forall j :: 0 <= j < |ws[k]| ==> !CsvSep(ws[k][j])
  {
    Words(csv, set c: char | ',' <= c <= ',' || IsSpace(c))
  }

  /** The rule a keyword list `tok.csv = csv` contributes, if any. */
  function CsvRule(tok: string, csv: string): Option<Rule>
  {
    var ws := CsvWords(csv);
    if ws == [] then None else Some(Rule(UpperStr(RStripChar(tok, 's')), CsvPattern(ws)))
  }

  /**
   * A list contributes a rule exactly when it has a word; the rule's
   * pattern alternates exactly those words, and its token is the list name
   * upper-cased with every trailing `s` gone.
   */
  lemma CsvRuleWords(tok: string, csv: string)
    ensures CsvRule(tok, csv).Some? <==> CsvWords(csv) != []
    ensures CsvRule(tok, csv).Some? ==> PatternWords(CsvRule(tok, csv).value.pattern) == Some(CsvWords(csv))
    ensures CsvRule(tok, csv).Some? ==> forall j :: 0 <= j < |RStripChar(tok, 's')| ==>
              CsvRule(tok, csv).value.token[j] == Upper(tok[j])
    ensures CsvRule(tok, csv).Some? ==> |CsvRule(tok, csv).value.token| <= |tok|
    ensures CsvRule(tok, csv).Some? ==> |CsvRule(tok, csv).value.token| == |RStripChar(tok, 's')|
    ensures CsvRule(tok, csv).Some? ==> forall j :: |CsvRule(tok, csv).value.token| <= j < |tok| ==> tok[j] == 's'
    ensures CsvRule(tok, csv).Some? && CsvRule(tok, csv).value.token != [] ==>
              tok[|CsvRule(tok, csv).value.token| - 1] != 's'
  {
    if CsvWords(csv) != [] {
      PatternRoundTrip(CsvWords(csv));
    }
  }

  /** A plural list name loses its `s`: a `keywords.csv` list with any word gives the token `KEYWORD`. */
  lemma KeywordsListToken(csv: string)
    requires CsvWords(csv) != []
    ensures CsvRule("keywords", csv).Some? && CsvRule("keywords", csv).value.token == "KEYWORD"
  {
    CsvRuleWords("keywords", csv);
    var t := CsvRule("keywords", csv).value.token;
    assert "keywords"[7] == 's' && "keywords"[6] != 's';
    assert |t| == 7;
    forall j | 0 <= j < 7
      ensures t[j] == "KEYWORD"[j]
    {
      assert t[j] == Upper("keywords"[j]);
    }
  }

  /** The rules of the keyword lists, in the order the lists were first given. */
  function CsvRules(csv: Dict<string, string>): (rs: seq<Rule>)
    ensures |rs| <= |csv|
  {
    if csv == [] then []
    else (match CsvRule(csv[0].0, csv[0].1) case None => [] case Some(r) => [r]) + CsvRules(csv[1..])
  }

  /** A stored syntax: the collected lines, with the default name and the keyword rules after the explicit ones. */
  function Compile(fn: string, d: Draft): Syntax
  {
    Syntax(if d.name == [] then StripExt(fn) else d.name, d.exts, d.regexes + CsvRules(d.csv), d.tags)
  }

  /** A file name keeps a non-empty stem under `os.path.splitext`. */
  lemma StemNonEmpty(fn: string)
    requires fn != []
    ensures StripExt(fn) != []
  {
    match ExtDot(fn)
    case None =>
    case Some(d) =>
      var b := Basename(fn);
      var k :| 0 <= k < LastIndex(b, '.').value && b[k] != '.';
  }

  /**
   * A compiled syntax has a non-empty name (the file's stem when the
   * section names none), the explicit rules first and in file order, then
   * one rule per non-empty keyword list.
   */
  lemma CompiledSyntax(fn: string, d: Draft)
    requires fn != []
    ensures Compile(fn, d).name != []
    ensures d.name != [] ==> Compile(fn, d).name == d.name
    ensures Compile(fn, d).regexes[..|d.regexes|] == d.regexes
    ensures Compile(fn, d).regexes[|d.regexes|..] == CsvRules(d.csv)
  {
    StemNonEmpty(fn);
  }

  /** The explicit rules among some entries, in order. */
  function RulesOf(es: seq<Entry>): seq<Rule>
  {
    if es == [] then []
    else RulesOf(es[..|es| - 1]) + (if es[|es| - 1].RegexEntry? then [es[|es| - 1].rule] else [])
  }

  /** The name of the last `name` line among some entries, or `dflt`. */
  function LastName(es: seq<Entry>, dflt: string): string
  {
    if es == [] then dflt
    else if es[|es| - 1].NameEntry? then es[|es| - 1].name
    else LastName(es[..|es| - 1], dflt)
  }

  /** Rules accumulate in file order, and the last `name` line wins. */
  lemma {:induction false} FoldRulesAndName(d: Draft, es: seq<Entry>)
    ensures Fold(d, es).regexes == d.regexes + RulesOf(es)
    ensures Fold(d, es).name == LastName(es, d.name)
  {
    if es != [] {
      FoldRulesAndName(d, es[..|es| - 1]);
    }
  }

  /** A directory entry: its file name and its lines, `None` when it cannot be read. */
  datatype SourceFile = SourceFile(name: string, lines: Option<seq<string>>)

  /** `fn.lower().endswith('.ini')` */
  predicate IsIni(fn: string) { EndsWith(LowerStr(fn), ".ini") }

  /** The syntax a directory entry yields: none for a non-`.ini` or unreadable file. */
  function Loaded(f: SourceFile, unraw: string -> string): Option<Syntax>
  {
    if IsIni(f.name) && f.lines.Some? then Some(Compile(f.name, ReadFile(f.lines.value, unraw))) else None
  }

  /** `_syntaxes` after loading the entries in order, each under its own name. */
  function LoadAll(files: seq<SourceFile>, unraw: string -> string): Dict<string, Syntax>
  {
    if files == [] then []
    else
      var acc := LoadAll(files[..|files| - 1], unraw);
      match Loaded(files[|files| - 1], unraw)
      case None => acc
      case Some(s) => Put(acc, s.name, s)
  }

  /** Every stored syntax sits under its own, non-empty name, and each name is stored once. */
  predicate Consistent(t: Dict<string, Syntax>) {
    WellFormed(t) && forall i :: 0 <= i < |t| ==> t[i].0 != [] && t[i].1.name == t[i].0
  }

  /** Storing a syntax under its own, non-empty name keeps the table consistent. */
  lemma {:induction false} PutConsistent(t: Dict<string, Syntax>, s: Syntax)
    requires Consistent(t) && s.name != []
    ensures Consistent(Put(t, s.name, s))
  {
    PutWellFormed(t, s.name, s);
    if t != [] && t[0].0 != s.name {
      assert Consistent(t[1..]) by {
        assert Keys(t[1..]) == Keys(t)[1..];
      }
      PutConsistent(t[1..], s);
    }
  }

  /** The loaded table is consistent whatever the directory holds. */
  lemma {:induction false} LoadAllConsistent(files: seq<SourceFile>, unraw: string -> string)
    ensures Consistent(LoadAll(files, unraw))
  {
    if files != [] {
      LoadAllConsistent(files[..|files| - 1], unraw);
      var f := files[|files| - 1];
      if Loaded(f, unraw).Some? {
        CompiledSyntax(f.name, ReadFile(f.lines.value, unraw));
        PutConsistent(LoadAll(files[..|files| - 1], unraw), Loaded(f, unraw).value);
      }
    }
  }

  /**
   * One more entry: a syntax it yields replaces any earlier one of the same
   * name, keeping that name's place in the key order, or is added last;
   * every other name keeps its syntax.
   */
  lemma LaterReplaces(files: seq<SourceFile>, f: SourceFile, unraw: string -> string, n: string)
    ensures Get(LoadAll(files + [f], unraw), n) ==
      if Loaded(f, unraw).Some? && Loaded(f, unraw).value.name == n then Loaded(f, unraw)
      else Get(LoadAll(files, unraw), n)
    ensures Loaded(f, unraw).None? ==> Keys(LoadAll(files + [f], unraw)) == Keys(LoadAll(files, unraw))
    ensures Loaded(f, unraw).Some? && Loaded(f, unraw).value.name in Keys(LoadAll(files, unraw)) ==>
              Keys(LoadAll(files + [f], unraw)) == Keys(LoadAll(files, unraw))
    ensures Loaded(f, unraw).Some? && Loaded(f, unraw).value.name !in Keys(LoadAll(files, unraw)) ==>
              Keys(LoadAll(files + [f], unraw)) == Keys(LoadAll(files, unraw)) + [Loaded(f, unraw).value.name]
  {
    assert (files + [f])[..|files|] == files;
    if Loaded(f, unraw).Some? {
      var s := Loaded(f, unraw).value;
      PutGet(LoadAll(files, unraw), s.name, s, n);
    }
  }
}
