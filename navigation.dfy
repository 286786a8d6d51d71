/**
 * The documentation viewer's navigation rules, as values: what a click on
 * a link means, the title a document is listed under, and the back/forward
 * history of visited documents.
 */
module Navigation {
  import opened Wrappers
  import opened Text

  /** What a click on a link asks the viewer to do. */
  datatype LinkAction =
    | Ignore
    | OpenDoc(name: string, anchor: Option<string>)
    | JumpTo(section: string)
    | External(url: string)

  /** A link is treated as internal when it names a `.md` file. */
  predicate LooksInternal(url: string) { EndsWith(url, ".md") || HasSubstring(url, ".md#") }

  /** `url.partition('#')[0]` */
  function DocPart(url: string): (d: string)
    ensures StartsWith(url, d) && '#' !in d
  {
    match FindFrom(url, 0, '#')
    case None => url
    case Some(h) => url[..h]
  }

  /** `url.partition('#')[2]` */
  function AnchorPart(url: string): (a: string)
    ensures EndsWith(url, a)
    ensures a != [] ==> |DocPart(url)| + 1 + |a| == |url| && url[|DocPart(url)|] == '#'
  {
    match FindFrom(url, 0, '#')
    case None => []
    case Some(h) => url[h + 1..]
  }

  /**
   * The document a link names: the base name of its document part without
   * the extension, or the current document when that is empty.
   */
  function TargetDoc(url: string, current: Option<string>): Option<string>
  {
    var part := DocPart(url);
    var name := if part == [] then [] else StripExt(Basename(part));
    if name == [] then current else Some(name)
  }

  /** `_on_link_click`, without the side effects: what the click does. */
  function ClassifyLink(url: string, current: Option<string>, known: set<string>): (act: LinkAction)
    ensures act.Ignore? <==> url == []
    ensures act.OpenDoc? ==> LooksInternal(url) && act.name in known
    ensures act.JumpTo? ==> url[0] == '#' && act.section == url[1..]
    ensures act.External? ==> act.url == url && url[0] != '#'
  {
    if url == [] then Ignore
    else
      var d := TargetDoc(url, current);
      if LooksInternal(url) && d.Some? && d.value in known then
        var a := AnchorPart(url);
        OpenDoc(d.value, if a == [] then None else Some(a))
      else if url[0] == '#' then JumpTo(url[1..])
      else External(url)
  }

  /** A plain name has no directory separator, no anchor mark and no dot. */
  predicate PlainName(d: string) { d != [] && '/' !in d && '#' !in d && '.' !in d }

  lemma ExtOfMd(d: string)
    requires PlainName(d)
    ensures Basename(d + ".md") == d + ".md" && StripExt(d + ".md") == d
  {
    var p := d + ".md";
    assert '/' !in p by { assert forall j :: 0 <= j < |p| ==> p[j] == if j < |d| then d[j] else ".md"[j - |d|]; }
    assert LastIndex(p, '/') == None;
    assert LastIndex(p, '.') == Some(|d|) by {
      assert p[..|p| - 1] == d + ".m" && (d + ".m")[..|d| + 1] == d + ".";
    }
    assert p[0] != '.';
    assert NonDotBefore(p, |d|);
    assert ExtDot(p) == Some(|d|);
    assert p[..|d|] == d;
  }

  /** `name.md#anchor` opens the named document at that anchor, when it is known. */
  lemma LinkToSection(d: string, a: string, current: Option<string>, known: set<string>)
    requires PlainName(d) && d in known && a != []
    ensures ClassifyLink(d + ".md#" + a, current, known) == OpenDoc(d, Some(a))
  {
    var url := d + ".md#" + a;
    assert OccursAt(url, ".md#", |d|);
    assert FindFrom(url, 0, '#') == Some(|d| + 3) by {
      assert forall j :: 0 <= j < |d| + 3 ==> url[j] == (d + ".md")[j];
      assert url[|d| + 3] == '#';
    }
    assert DocPart(url) == d + ".md";
    assert AnchorPart(url) == a;
    ExtOfMd(d);
  }

  /** `name.md` opens the named document at its top, when it is known. */
  lemma LinkToDocument(d: string, current: Option<string>, known: set<string>)
    requires PlainName(d) && d in known
    ensures ClassifyLink(d + ".md", current, known) == OpenDoc(d, None)
  {
    var url := d + ".md";
    assert '#' !in url by { assert forall j :: 0 <= j < |url| ==> url[j] == if j < |d| then d[j] else ".md"[j - |d|]; }
    assert FindFrom(url, 0, '#') == None;
    ExtOfMd(d);
  }

  lemma NoDotNotInternal(s: string)
    requires '.' !in s
    ensures !LooksInternal(s)
  {
    if |s| >= 3 { assert s[|s| - 3..][0] == s[|s| - 3]; }
    forall k: nat ensures !OccursAt(s, ".md#", k) {
      if k + 4 <= |s| { assert s[k..k + 4][0] == s[k]; }
    }
  }

  /** `#anchor`, with no dot in the anchor, jumps within the current document. */
  lemma LinkToAnchor(a: string, current: Option<string>, known: set<string>)
    requires '.' !in a
    ensures ClassifyLink("#" + a, current, known) == JumpTo(a)
  {
    var url := "#" + a;
    assert forall j :: 0 <= j < |url| ==> url[j] != '.' by {
      forall j | 0 <= j < |url| ensures url[j] != '.' {
        if j > 0 { assert url[j] == a[j - 1]; }
      }
    }
    NoDotNotInternal(url);
  }

  /**
   * A link to an unknown document is not opened: it is a jump when it
   * starts with `#` and an external link otherwise.
   */
  lemma UnknownDocumentFallsThrough(url: string, current: Option<string>, known: set<string>)
    requires url != [] && (TargetDoc(url, current).None? || TargetDoc(url, current).value !in known)
    ensures url[0] == '#' ==> ClassifyLink(url, current, known) == JumpTo(url[1..])
    ensures url[0] != '#' ==> ClassifyLink(url, current, known) == External(url)
  {
  }

  /**
   * `#intro.md` is read as a link to the current document with anchor
   * `intro.md`, not as a jump: the `.md` test comes before the `#` test.
   */
  lemma HashMdReloadsCurrent(a: string, cur: string, known: set<string>)
    requires cur in known
    ensures ClassifyLink("#" + a + ".md", Some(cur), known) == OpenDoc(cur, Some(a + ".md"))
  {
    var url := "#" + a + ".md";
    assert url[|url| - 3..] == ".md";
    assert FindFrom(url, 0, '#') == Some(0);
    assert DocPart(url) == [];
    assert AnchorPart(url) == a + ".md";
  }

  /** Every link is handled in exactly one way, and only known documents are opened. */
  lemma ClassifyTotal(url: string, current: Option<string>, known: set<string>)
    ensures ClassifyLink(url, current, known).OpenDoc? <==>
      (url != [] && LooksInternal(url) && TargetDoc(url, current).Some? && TargetDoc(url, current).value in known)
  {
  }

  /** A document's title: the first line without its `#` marks, or the name. */
  function Title(name: string, firstLine: string): string
  {
    var f := Strip(firstLine);
    if StartsWith(f, "#") then Strip(LStripChar(f, '#')) else name
  }

  /** A heading line `## Text` gives the document the title `Text`. */
  lemma TitleOfHeading(name: string, k: nat, text: string)
    requires k >= 1 && text != [] && text == Strip(text) && text[0] != '#'
    ensures Title(name, Repeat('#', k) + " " + text) == text
  {
    var rest := " " + text;
    var line := Repeat('#', k) + rest;
    assert Repeat('#', k) + " " + text == line;
    HeadingEnds(k, text);
    StripUnchanged(line);
    LStripHashes(k, rest);
    SpaceThenText(text);
    assert LStripChar(rest, '#') == rest;
  }

  lemma HeadingEnds(k: nat, text: string)
    requires k >= 1 && text != [] && text == Strip(text)
    ensures var line := Repeat('#', k) + (" " + text);
      line[0] == '#' && !IsSpace(line[|line| - 1]) && StartsWith(line, "#")
  {
    assert !IsSpace(Strip(text)[|text| - 1]);
    var line := Repeat('#', k) + (" " + text);
    assert line[..1] == [line[0]];
  }

  lemma SpaceThenText(text: string)
    requires text != [] && text == Strip(text)
    ensures Strip(" " + text) == text
  {
    var rest := " " + text;
    assert !IsSpace(Strip(text)[0]) && !IsSpace(Strip(text)[|text| - 1]);
    assert rest[1..] == text;
    LStripOne(rest);
    assert RStrip(text) == text;
  }

  lemma {:induction false} LStripHashes(k: nat, rest: string)
    ensures LStripChar(Repeat('#', k) + rest, '#') == LStripChar(rest, '#')
  {
    if k > 0 {
      var h := "#" + rest;
      assert Repeat('#', k) + rest == Repeat('#', k - 1) + h;
      LStripHashes(k - 1, h);
      assert h[1..] == rest;
    } else {
      assert Repeat('#', 0) + rest == rest;
    }
  }

  /** A first line that is not a heading leaves the document titled by its name. */
  lemma TitleOfPlainLine(name: string, line: string)
    requires line != [] && !IsSpace(line[0]) && line[0] != '#'
    ensures Title(name, line) == name
  {
    StripHead(line);
  }

  /** The first line of a file's content, as `readline().strip()` reads it. */
  function FirstLine(content: string): string
  {
    Strip(SplitBy(content, {'\n'})[0])
  }

  /** What the viewer knows about one document. */
  datatype DocInfo = DocInfo(title: string, filename: string, content: string)

  /** The catalogue entry for a file: `name.md` is listed as `name`. */
  function DocEntry(filename: string, content: string): (e: Option<(string, DocInfo)>)
    ensures e.Some? <==> EndsWith(filename, ".md")
    ensures e.Some? ==> (filename == e.value.0 + ".md" && e.value.1.filename == filename
      && e.value.1.title == Title(e.value.0, FirstLine(content)))
  {
    if EndsWith(filename, ".md") then
      var name := filename[..|filename| - 3];
      assert filename == name + filename[|filename| - 3..];
      Some((name, DocInfo(Title(name, FirstLine(content)), filename, content)))
    else None
  }

  /** Python's string order: character by character by code point, a proper prefix first. */
  predicate LexLe(a: string, b: string)
    decreases |a|
  {
    a == [] || (b != [] && (a[0] < b[0] || (a[0] == b[0] && LexLe(a[1..], b[1..]))))
  }

  lemma {:induction false} LexLeReflexive(a: string)
    ensures LexLe(a, a)
    decreases |a|
  {
    if a != [] {
      LexLeReflexive(a[1..]);
    }
  }

  /** Any two names are ordered one way or the other. */
  lemma {:induction false} LexLeTotal(a: string, b: string)
    ensures LexLe(a, b) || LexLe(b, a)
    decreases |a|
  {
    if a != [] && b != [] && a[0] == b[0] {
      LexLeTotal(a[1..], b[1..]);
    }
  }

  lemma {:induction false} LexLeTrans(a: string, b: string, c: string)
    requires LexLe(a, b) && LexLe(b, c)
    ensures LexLe(a, c)
    decreases |a|
  {
    if a != [] && a[0] == b[0] && b[0] == c[0] {
      LexLeTrans(a[1..], b[1..], c[1..]);
    }
  }

  /** Names ordered both ways are equal. */
  lemma {:induction false} LexLeAntisymmetric(a: string, b: string)
    requires LexLe(a, b) && LexLe(b, a)
    ensures a == b
    decreases |a|
  {
    if a != [] {
      LexLeAntisymmetric(a[1..], b[1..]);
      assert a == [a[0]] + a[1..] && b == [b[0]] + b[1..];
    }
  }

  /** `d` is `sorted(names)[0]`. */
  predicate IsFirst(names: set<string>, d: string) {
    d in names && forall n :: n in names ==> LexLe(d, n)
  }

  /** A set of names has at most one first name. */
  lemma FirstIsUnique(names: set<string>, d: string, e: string)
    requires IsFirst(names, d) && IsFirst(names, e)
    ensures d == e
  {
    LexLeAntisymmetric(d, e);
  }

  /** The document shown at start-up: `INDEX`, else `README`, else the first name in sorted order. */
  predicate DefaultChoice(names: set<string>, d: string) {
    if "INDEX" in names then d == "INDEX"
    else if "README" in names then d == "README"
    else IsFirst(names, d)
  }

  /** `sorted(names)[0]`, found by keeping the least name seen so far. */
  method FirstSorted(names: set<string>) returns (first: string)
    requires names != {}
    ensures IsFirst(names, first)
  {
    first :| first in names;
    LexLeReflexive(first);
    var rest := names - {first};
    ghost var seen := {first};
    while rest != {}
      invariant seen + rest == names && first in seen
      invariant forall n :: n in seen ==> LexLe(first, n)
      decreases |rest|
    {
      var n :| n in rest;
      LexLeTotal(first, n);
      if !LexLe(first, n) {
        forall m | m in seen
          ensures LexLe(n, m)
        {
          LexLeTrans(n, first, m);
        }
        LexLeReflexive(n);
        first := n;
      }
      rest := rest - {n};
      seen := seen + {n};
    }
  }

  /** `_load_default_document`'s choice, for a non-empty catalogue. */
  method DefaultDocument(names: set<string>) returns (d: string)
    requires names != {}
    ensures d in names && DefaultChoice(names, d)
  {
    if "INDEX" in names {
      d := "INDEX";
    } else if "README" in names {
      d := "README";
    } else {
      d := FirstSorted(names);
    }
  }

  /** The back/forward list: visited document names and the current index. */
  datatype History = History(entries: seq<string>, index: int)

  const NoHistory := History([], -1)

  /** Either nothing was visited yet, or the index points at an entry. */
  predicate ValidHistory(h: History) {
    (h.entries == [] && h.index == -1) || 0 <= h.index < |h.entries|
  }

  predicate CanGoBack(h: History) { h.index > 0 }

  predicate CanGoForward(h: History) { h.index < |h.entries| - 1 }

  /** Opening a document from a link or the menu: forward entries are dropped. */
  function Visit(h: History, name: string): (h': History)
    requires ValidHistory(h)
    ensures |h'.entries| == h.index + 2 && h'.index == h.index + 1 && h'.entries[h'.index] == name
    ensures ValidHistory(h')
    ensures h'.entries[..h'.index] == h.entries[..h.index + 1]
  {
    var kept := h.entries[..h.index + 1];
    assert (kept + [name])[..|kept|] == kept;
    History(kept + [name], |kept|)
  }

  function Back(h: History): (h': History)
    ensures h'.entries == h.entries
    ensures CanGoBack(h) ==> h'.index == h.index - 1
    ensures !CanGoBack(h) ==> h' == h
  {
    if CanGoBack(h) then h.(index := h.index - 1) else h
  }

  function Forward(h: History): (h': History)
    ensures h'.entries == h.entries
    ensures CanGoForward(h) ==> h'.index == h.index + 1
    ensures !CanGoForward(h) ==> h' == h
  {
    if CanGoForward(h) then h.(index := h.index + 1) else h
  }

  /** Back and forward keep the history valid. */
  lemma MovesKeepValid(h: History)
    requires ValidHistory(h)
    ensures ValidHistory(Back(h)) && ValidHistory(Forward(h))
  {
  }

  /** Going back and then forward returns to the same place, and vice versa. */
  lemma BackForwardInverse(h: History)
    requires ValidHistory(h)
    ensures CanGoBack(h) ==> Forward(Back(h)) == h
    ensures CanGoForward(h) ==> Back(Forward(h)) == h
  {
  }

  /** After a visit there is nothing to go forward to. */
  lemma VisitClearsForward(h: History, name: string)
    requires ValidHistory(h)
    ensures !CanGoForward(Visit(h, name))
    ensures CanGoBack(Visit(h, name)) <==> h.entries != []
  {
  }

  /** Visiting a, b and c, going back and visiting d leaves a, b, d. */
  lemma BackThenVisit(a: string, b: string, c: string, d: string)
    ensures Visit(Back(Visit(Visit(Visit(NoHistory, a), b), c)), d) == History([a, b, d], 2)
  {
    var h1 := Visit(NoHistory, a);
    assert h1 == History([a], 0);
    var h2 := Visit(h1, b);
    assert h2 == History([a, b], 1);
    var h3 := Visit(h2, c);
    assert h3 == History([a, b, c], 2);
    assert Back(h3) == History([a, b, c], 1);
    assert [a, b, c][..2] == [a, b];
  }
}
