# BalrogNPC documentation viewer and syntax highlighter, modelled in Dafny

This project models the two Python modules that hold the program's text
logic.

`markdown_viewer.py` is a Tk window that browses a directory of Markdown
documents. The model covers:

- the line-by-line block parser of `_render_markdown`: code fences, headers,
  horizontal rules, tables, list items, block quotes and paragraphs;
- the inline tokenizer of `_insert_formatted_text`: links, inline code,
  bold, italic and checkboxes, tried in that order, first match wins;
- the spans each block inserts into the text widget, with their tags and
  link targets;
- the anchor keys (`_make_anchor_key`), the anchor map and the table of
  contents built while rendering;
- link classification (`_on_link_click`), the document catalogue entry and
  its title (`_scan_docs`);
- the back/forward history and the window's navigation handlers.

`syntax_highlighter.py` loads `.ini` syntax definitions and tags regular
expression matches in a text widget. The model covers:

- the `[Syntax]` section reader of `_load_all_syntaxes`: `name`,
  `detect.ext`, `regex.<TOKEN>_RE`, `tag.<t>.fg|bg` and `<list>.csv` lines;
- the compilation of keyword lists into `\b(?:…)\b` patterns through
  `re.escape`;
- the table of loaded syntaxes, where a later file of the same name
  replaces an earlier one but keeps its place;
- syntax lookup by file extension, `set_syntax` and `set_syntax_for_file`;
- tag-key choice and tag names;
- the timer bookkeeping of `schedule_highlight`;
- `highlight`, which clears every rule's tag and then tags the matches of
  each rule in order.

Pure parts are Dafny functions with lemmas. The window
(`Viewer.MarkdownViewer`) and the highlighter (`Highlighter.SyntaxHighlighter`)
are classes whose methods update fields in place. Their loops are proved
against the specification functions: the rendering loop, the inline
scanning loop, the table row loops, the `.ini` reading loop, the loading
loop, the extension lookup and the highlighting loops.

Modules, in dependency order:

- `Wrappers`: `Option`.
- `Text`: Python string helpers over ASCII, such as `strip`, `lower`,
  `split`, `os.path.splitext` and `basename`.
- `Ordered`: an insertion-ordered dictionary, as Python's `dict`.
- `Anchor`, `Inline`, `Blocks`, `Render`, `Navigation`, `Viewer`: the viewer.
- `SyntaxLine`, `SyntaxFile`, `Highlighter`: the highlighter. `SyntaxLine`
  holds the scanners for the `regex.`, `tag.` and `.csv` line patterns and
  for the `name`/`detect.ext` keys. Each scanner's value is the rest of the
  line after the `=` and the whitespace that follows it, and its runs of
  token characters are greedy, as in Python's `re`.

The regular-expression engine the highlighter hands user patterns to is a
parameter (`Highlighter.Engine`). It is a pair of functions: whether a
pattern compiles, and its non-overlapping matches in order. The
`R"…"`-unwrapping substitution applied to every `regex.` value is also a
parameter (`unraw`). The fixed patterns of both modules are written out as
scanners, and lemmas tie each scanner to the shape its pattern describes.

Behaviour of the code worth knowing:

- `set_syntax_for_file` on a file whose extension no syntax lists leaves the
  active syntax as it was. It does not clear it (`if name:` guards the call
  to `set_syntax`).
- A code fence is any line whose stripped form starts with three backticks,
  including a line such as "```python" that names a language.
- A fence or a table still open at the end of the document is dropped, not
  rendered.
- A `|` line opens a table only when the next line is a separator row.
  Otherwise it is read like any other line (`Blocks.BarLineWithoutSeparator`).
- A task-list line `- [x] item` is parsed as a list item before the inline
  checkbox pattern can see it. Its text `[x] item` then holds no checkbox,
  so no checkbox is shown (`Render.TaskItemShowsNoCheckbox`).

## Model

| member | source | states |
|---|---|---|
| Anchor.CollapsedHasNoSpace | markdown_viewer.py:619 | after `\s+` runs become hyphens, no whitespace is left |
| Anchor.KeptAreKeyChars | markdown_viewer.py:620 | only lowercase letters, digits and hyphens survive the character filter |
| Anchor.MakeAnchorKey | markdown_viewer.py:615-621 | every anchor key consists only of `[a-z0-9-]` characters |
| Anchor.AnchorKeyIdempotent | markdown_viewer.py:615-621 | normalising an anchor key a second time leaves it unchanged |
| Anchor.KeyIsOwnKey | markdown_viewer.py:615-621 | any string already made of key characters is its own key, so `#key` links written in normalised form find their header |
| Anchor.KeepConcat | markdown_viewer.py:620 | the character filter distributes over concatenation |
| Anchor.CollapseOneSpace | markdown_viewer.py:619 | one space between two words without whitespace becomes exactly one hyphen |
| Anchor.HelloWorldKey | markdown_viewer.py:615-621 | worked example: the header text "Hello, World!" has the key "hello-world" |
| Inline.Delimited | markdown_viewer.py:455 | the closing delimiter found is the first one after a non-empty body |
| Inline.LinkUnique | markdown_viewer.py:455-475 | a link matching at a position is exactly the one the link scanner returns there |
| Inline.LinkAt | markdown_viewer.py:455-475 | `[text](url)` with no `]` in the text and no `)` in the url, in place at a position, is recognised with that text and url |
| Inline.LinkFound | markdown_viewer.py:455-475 | a link the scanner returns spells out `[text](url)` at that position |
| Inline.CodeFound | markdown_viewer.py:478-486 | inline code the scanner returns is a backtick-delimited run without backticks |
| Inline.CodeUnique | markdown_viewer.py:478-486 | backtick-enclosed code at a position is what the scanner returns |
| Inline.BoldFound | markdown_viewer.py:489-497 | bold text returned is enclosed by `**` or `__` and free of its marker |
| Inline.BoldUnique | markdown_viewer.py:489-497 | `**t**` or `__t__` at a position is recognised as bold `t` |
| Inline.ItalicFound | markdown_viewer.py:500-508 | italic text returned is enclosed by `*` or `_` and free of its marker |
| Inline.ItalicUnique | markdown_viewer.py:500-508 | `*t*` or `_t_` at a position is recognised as italic `t` |
| Inline.MatchCheckbox | markdown_viewer.py:511-518 | a checkbox is recognised only where `- [ ] ` or `- [x] ` stands |
| Inline.CheckboxChecked | markdown_viewer.py:511-518 | a checkbox is checked exactly when its bracket holds `x` |
| Inline.FirstMatchWins | markdown_viewer.py:452-523 | the run taken at a position is the first of link, code, bold, italic, checkbox that matches, so any other matching run comes later in that order |
| Inline.NextRunMatches | markdown_viewer.py:452-523 | the run taken at a position matches the text there |
| Inline.TryLast | markdown_viewer.py:521-523 | when no pattern matches, exactly one plain character is taken |
| Inline.TokenizePartition | markdown_viewer.py:443-523 | the runs partition the text: their sources, in order, spell out the whole input |
| Inline.TokenizeNoMarkup | markdown_viewer.py:443-523 | text without markup characters becomes one plain run per character |
| Inline.NoDashNoCheckbox | markdown_viewer.py:511-518 | text without a dash never yields a checkbox |
| Blocks.HeaderRecognition | markdown_viewer.py:352-370 | a line is a header exactly when it is 1 to 6 hashes, whitespace and text; the level is the hash count and the text is stripped |
| Blocks.SeparatorRowCorrect | markdown_viewer.py:381 | the separator-row scanner accepts exactly the lines matching `^\|?[\s:\|-]+\|` |
| Blocks.ListItemRecognition | markdown_viewer.py:400-406 | a line is a list item exactly when it is whitespace, a bullet or digits-and-dot marker, whitespace and text; the indent is the leading whitespace and the text starts where the greedy whitespace run stops |
| Blocks.ListItemText | markdown_viewer.py:400-406 | a list item's indent counts the line's leading whitespace and its text is a non-empty proper tail of the line |
| Blocks.DashItemText | markdown_viewer.py:400-406 | `- x…` is a list item at indent 0 whose text follows the dash and space |
| Blocks.HeaderNotFence | markdown_viewer.py:332-352 | a header line is never a code fence |
| Blocks.Classify | markdown_viewer.py:332-420 | a line's classification keeps the line, records whether it holds `\|`, and calls it blank exactly when it is all whitespace |
| Blocks.ClassifyAt | markdown_viewer.py:329-420 | each line is classified on its own |
| Blocks.ClassifyAllCoherent | markdown_viewer.py:329-420 | every classified line is coherent: a separator row holds `\|`, and a heading is never a fence, so `TableBlock`'s coherence hypothesis holds for every parsed document |
| Blocks.Lines | markdown_viewer.py:320 | splitting on newlines yields at least one line, none holding a newline |
| Blocks.Step | markdown_viewer.py:328-420 | one loop pass emits at most one block and advances one line, except the pass that closes a table, which re-reads the line |
| Blocks.ParseStep | markdown_viewer.py:328-420 | parsing from a line is that line's step followed by parsing from where the step leaves off |
| Blocks.FencedCode | markdown_viewer.py:332-349 | the lines strictly between two fences become one code block, joined verbatim with newlines |
| Blocks.CodeCapture | markdown_viewer.py:332-349 | inside a fence, all lines up to the next fence are captured, whatever they look like |
| Blocks.UnterminatedFence | markdown_viewer.py:332-349 | a fence never closed swallows the rest of the document and emits nothing |
| Blocks.TableBlock | markdown_viewer.py:379-397 | a `\|` line followed by a separator row starts a table; the following `\|` lines are collected; the first line without `\|` closes it and is parsed again |
| Blocks.BarLineWithoutSeparator | markdown_viewer.py:379-420 | a `\|` line not followed by a separator row (or the last line) opens no table and is read as a list item, quote, paragraph or blank line |
| Blocks.TrailingTableDropped | markdown_viewer.py:379-397 | a table still open at the end of the document is never emitted |
| Blocks.HeaderInsideTable | markdown_viewer.py:352-397 | a header met while a table is collected is emitted at once and collection continues |
| Blocks.Cells | markdown_viewer.py:552 | table cells are non-empty and start with a non-space |
| Blocks.StrippedCellsMembers | markdown_viewer.py:552 | a string is a cell exactly when it is the stripped form of a non-blank piece between bars |
| Blocks.StrippedCellsAppend | markdown_viewer.py:552 | the cells of consecutive pieces are the cells of each part, in order |
| Blocks.StrippedCellsOne | markdown_viewer.py:552 | a blank piece gives no cell; any other piece gives its stripped text |
| Render.RunSpanTags | markdown_viewer.py:455-523 | every run but a checkbox ends with the base tag; a checkbox carries only its checked or unchecked tag; only links carry a target |
| Render.BaseTagApplied | markdown_viewer.py:443-523 | every non-checkbox span of formatted text carries the base tag |
| Render.FormattedPlain | markdown_viewer.py:521-523 | text without markup is inserted unchanged, each character with exactly the base tag |
| Render.NatString | markdown_viewer.py:432 | the level written into a header tag is a non-empty string of digits |
| Render.Bullet | markdown_viewer.py:533-538 | a bullet is two spaces per two columns of indent, then `• ` |
| Render.WithNewline | markdown_viewer.py:525-531 | the inserted code starts with the code, ends in a newline and adds at most one character |
| Render.CodeBlockText | markdown_viewer.py:525-531 | a code block is inserted untagged and unformatted: its text is the code, newline-terminated, plus one more newline |
| Render.CodeBlockVerbatim | markdown_viewer.py:525-531 | a code block's text starts with the code and ends with an empty line |
| Render.PlainParagraph | markdown_viewer.py:438-441 | a paragraph without markup shows its line, then a newline |
| Render.PlainHeader | markdown_viewer.py:430-436 | a header without markup shows its text, every character tagged with its level's tag, then a blank line |
| Render.TableSkipsSeparator | markdown_viewer.py:546-574 | what a table shows does not depend on its second line: the separator row is never shown |
| Render.ThreeLineTable | markdown_viewer.py:546-574 | a three-line table shows its first line's cells as the header, the rule, and its third line's cells as the only body row |
| Render.TwoCells | markdown_viewer.py:552 | the line `\|a\|b\|` has the two cells `a` and `b` |
| Render.SimpleTable | markdown_viewer.py:546-574 | worked example: the table `\|A\|B\|`, `\|-\|-\|`, `\|1\|2\|` shows the header A, B and the one row 1, 2 |
| Render.TaskItemShowsNoCheckbox | markdown_viewer.py:400-406 | a task-list line is a list item whose text yields no checkbox run |
| Render.DocLenIsTextLength | markdown_viewer.py:300-428 | the running insert position equals the length of the text inserted so far |
| Render.AnchorsStep | markdown_viewer.py:357-366 | rendering a header records its key at the current end of the text |
| Render.AnchorsAreUpdates | markdown_viewer.py:357-366 | the anchor map is the in-order update of each header's key to its start |
| Render.DocumentAnchor | markdown_viewer.py:357-366 | a key's anchor is the start of the last header with that key |
| Render.NoHeaderNoAnchor | markdown_viewer.py:357-366 | a key no header has is not an anchor |
| Render.TocOrdered | markdown_viewer.py:357-366 | table-of-contents positions are in document order and within the text |
| Render.TocSkipsDeepHeaders | markdown_viewer.py:357-366 | only headers of levels 1 to 3 enter the table of contents |
| Navigation.DocPart | markdown_viewer.py:593 | the document part of a link is a `#`-free prefix of it |
| Navigation.AnchorPart | markdown_viewer.py:593 | the anchor part is the suffix after the first `#` |
| Navigation.ClassifyLink | markdown_viewer.py:580-613 | an empty link is ignored; only known documents are opened; `#x` jumps to `x`; everything else is reported as external |
| Navigation.ClassifyTotal | markdown_viewer.py:580-613 | a link opens a document exactly when it names `.md` and its target is a known document |
| Navigation.LinkToSection | markdown_viewer.py:592-602 | `name.md#anchor` opens a known document at that anchor |
| Navigation.LinkToDocument | markdown_viewer.py:592-602 | `name.md` opens a known document at its top |
| Navigation.LinkToAnchor | markdown_viewer.py:605-608 | `#anchor` with no dot jumps within the current document |
| Navigation.UnknownDocumentFallsThrough | markdown_viewer.py:580-613 | a link to an unknown document is a jump if it starts with `#`, otherwise external |
| Navigation.HashMdReloadsCurrent | markdown_viewer.py:592-608 | `#x.md` reopens the current document with anchor `x.md` because the `.md` test comes first |
| Navigation.TitleOfHeading | markdown_viewer.py:76 | a first line `## Text` gives the title `Text` |
| Navigation.TitleOfPlainLine | markdown_viewer.py:76 | a first line that is not a heading leaves the name as title |
| Navigation.DocEntry | markdown_viewer.py:68-83 | exactly the `.md` files are listed, under their name without extension, titled by their first line |
| Navigation.LexLeReflexive | markdown_viewer.py:252 | every name sorts no later than itself |
| Navigation.LexLeTotal | markdown_viewer.py:252 | Python's string order compares any two names |
| Navigation.LexLeTrans | markdown_viewer.py:252 | Python's string order is transitive |
| Navigation.LexLeAntisymmetric | markdown_viewer.py:252 | two names each sorted no later than the other are equal |
| Navigation.FirstIsUnique | markdown_viewer.py:252 | a set of names has only one first name in sorted order |
| Navigation.FirstSorted | markdown_viewer.py:252 | the loop finds `sorted(names)[0]`: a name of the set that sorts no later than any other |
| Navigation.DefaultDocument | markdown_viewer.py:244-253 | the start-up document is `INDEX` if present, else `README`, else the first name in sorted order |
| Navigation.Visit | markdown_viewer.py:275-280 | a visit drops forward entries, appends the document and points at it, keeping the history valid |
| Navigation.Back | markdown_viewer.py:649-655 | back moves one entry back when possible and changes nothing otherwise |
| Navigation.Forward | markdown_viewer.py:657-663 | forward moves one entry forward when possible and changes nothing otherwise |
| Navigation.MovesKeepValid | markdown_viewer.py:649-663 | back and forward keep the history index in range |
| Navigation.BackForwardInverse | markdown_viewer.py:649-663 | back then forward, and forward then back, return to the same place |
| Navigation.VisitClearsForward | markdown_viewer.py:275-280 | after a visit nothing lies ahead, and back is possible exactly when something was visited before |
| Navigation.BackThenVisit | markdown_viewer.py:275-280 | visiting a, b, c, going back and visiting d leaves history a, b, d |
| Viewer.TakeRun | markdown_viewer.py:452-523 | the run found by trying link, code, bold, italic and checkbox in order is the specified next run |
| Viewer.MarkdownViewer.constructor | markdown_viewer.py:27-61 | a new window has the scanned catalogue; with no documents it has empty history, no document, an empty widget and both buttons disabled; otherwise it shows the default document as the only history entry, titled and scrolled to the top |
| Viewer.MarkdownViewer.LoadDefaultDocument | markdown_viewer.py:244-253 | with no documents nothing changes; otherwise the default document is opened with history, at its top |
| Viewer.MarkdownViewer.UpdateNavButtons | markdown_viewer.py:665-675 | the buttons are enabled exactly when back and forward are possible |
| Viewer.MarkdownViewer.InsertFormattedText | markdown_viewer.py:443-523 | the widget gains the spans of the text's runs, in order |
| Viewer.MarkdownViewer.InsertHeader | markdown_viewer.py:430-436 | the widget gains the header's spans |
| Viewer.MarkdownViewer.InsertParagraph | markdown_viewer.py:438-441 | the widget gains the paragraph's spans |
| Viewer.MarkdownViewer.InsertCodeBlock | markdown_viewer.py:525-531 | the widget gains the code block's spans |
| Viewer.MarkdownViewer.InsertListItem | markdown_viewer.py:533-538 | the widget gains the bullet and the item text |
| Viewer.MarkdownViewer.InsertBlockquote | markdown_viewer.py:540-544 | the widget gains the indented quote |
| Viewer.MarkdownViewer.InsertHr | markdown_viewer.py:576-578 | the widget gains the rule line |
| Viewer.MarkdownViewer.InsertTable | markdown_viewer.py:546-574 | the widget gains the padded header row, the rule, and the formatted body rows; the separator row is never shown |
| Viewer.MarkdownViewer.EmitBlock | markdown_viewer.py:352-420 | emitting a block keeps the widget, the anchors and the table of contents equal to the rendering of the blocks so far |
| Viewer.MarkdownViewer.RenderMarkdown | markdown_viewer.py:300-428 | after rendering, the widget, anchors and table of contents are exactly those of the parsed document, scrolled to the top |
| Viewer.MarkdownViewer.JumpToAnchor | markdown_viewer.py:623-633 | a known key scrolls to its header and reports it; an unknown key reports the missing section and does not scroll |
| Viewer.MarkdownViewer.LoadDocument | markdown_viewer.py:255-298 | an unknown name only raises an error; a known one updates history when asked, shows and titles the document and scrolls to the anchor |
| Viewer.MarkdownViewer.GoBack | markdown_viewer.py:649-655 | when there is an earlier entry, the history moves back without adding history, and the previous document becomes current, is shown, titled `BalrogNPC Documentation - <title>`, scrolled to the top, with status `Loaded: <filename>`; at the start of history nothing changes |
| Viewer.MarkdownViewer.GoForward | markdown_viewer.py:657-663 | when there is a later entry, the history moves forward without adding history, and the next document becomes current, is shown, titled `BalrogNPC Documentation - <title>`, scrolled to the top, with status `Loaded: <filename>`; at the end of history nothing changes |
| Viewer.MarkdownViewer.OnLinkClick | markdown_viewer.py:580-613 | an empty link changes nothing; a known document is visited, shown, titled and scrolled to the anchor; a section link moves only the view and status as the jump decides; an external link only sets the status and adds a notice |
| Viewer.MarkdownViewer.Follow | markdown_viewer.py:580-613 | each classified link has the effect just described |
| Viewer.MarkdownViewer.FollowDocument | markdown_viewer.py:592-602 | a link to a known document visits it and shows it scrolled to the anchor |
| Viewer.MarkdownViewer.FollowSection | markdown_viewer.py:605-608 | a section link changes only the view and status, as the jump decides |
| Viewer.MarkdownViewer.NotifyExternal | markdown_viewer.py:610-613 | an external link sets the status and adds one notice, nothing else |
| Viewer.MarkdownViewer.OnDocSelected | markdown_viewer.py:635-639 | choosing a known document opens it with history at its top; anything else changes nothing at all |
| Viewer.MarkdownViewer.OnTocSelect | markdown_viewer.py:641-647 | choosing an entry scrolls to its header's position |
| SyntaxLine.KeyValueRecognition | syntax_highlighter.py:57-65 | a line is a `name` (or `detect.ext`) line exactly when it starts with the key in any case, then `=` between optional whitespace; the value is the rest after that whitespace |
| SyntaxLine.IndentedNameIgnored | syntax_highlighter.py:57 | the key is anchored at the start of the line: an indented `name = x` is not a name line |
| SyntaxLine.RegexLine | syntax_highlighter.py:67-69 | a regex line's token is non-empty and free of dots, `=` and whitespace |
| SyntaxLine.RegexRecognition | syntax_highlighter.py:67-69 | a line is a regex line exactly when it is optional whitespace, `regex.`, a token, `_RE`, and an assignment; the token and the value are the ones that shape places |
| SyntaxLine.RegexAssignment | syntax_highlighter.py:67-69 | `regex.<TOKEN>_RE = <p>` yields the token and the pattern `p` |
| SyntaxLine.KeywordRegexLine | syntax_highlighter.py:67-69 | worked example: `regex.KEYWORD_RE = p` yields the token `KEYWORD` and the pattern `p` |
| SyntaxLine.TagRecognition | syntax_highlighter.py:84-90 | a line is a tag line exactly when it is optional whitespace, `tag.`, a dot-free name, `.fg` or `.bg`, and an assignment; the name, the layer and the value are the ones that shape places |
| SyntaxLine.TagAssignment | syntax_highlighter.py:84-90 | `tag.<name>.fg = <c>` (or `.bg`) sets that layer of the tag `name` to `c` |
| SyntaxLine.TagNameWithEquals | syntax_highlighter.py:84-90 | worked example: `tag.a=b.fg = c` names the tag `a=b`, because a tag name may hold `=` |
| SyntaxLine.CsvRecognition | syntax_highlighter.py:92-97 | a line is a list line exactly when it is optional whitespace, a word of letters, digits and `_`, `.csv`, and an assignment; the list name and the value are the ones that shape places |
| SyntaxFile.ExtList | syntax_highlighter.py:61-65 | the extension list has at most one entry per piece |
| SyntaxFile.ExtListMembers | syntax_highlighter.py:64 | a string is listed exactly when it is the stripped, dot-trimmed form of a non-blank piece |
| SyntaxFile.ExtListAppend | syntax_highlighter.py:64 | the pieces are treated one by one, in order: the list of joined pieces is the joined lists |
| SyntaxFile.ExtListOne | syntax_highlighter.py:64 | a blank piece lists nothing; any other piece lists its stripped form without leading dots |
| SyntaxFile.ClassifyLine | syntax_highlighter.py:54-55 | blank lines and comments are ignored |
| SyntaxFile.FindHeader | syntax_highlighter.py:47-50 | the section starts at the first `[syntax…` line, case-insensitively |
| SyntaxFile.SectionEnd | syntax_highlighter.py:51-53 | the section ends at the next `[` line or at the end of the file |
| SyntaxFile.ScanReads | syntax_highlighter.py:42-97 | the line loop reads exactly the entries between the section header and the section's end |
| SyntaxFile.ReadSyntaxFile | syntax_highlighter.py:42-97 | the reading loop yields what the file's section says |
| SyntaxFile.FoldRulesAndName | syntax_highlighter.py:56-82 | regex rules accumulate in file order and the last `name` line wins |
| SyntaxFile.EscapeRead | syntax_highlighter.py:109 | an escaped word reads back as itself when followed by any pattern text |
| SyntaxFile.JoinRead | syntax_highlighter.py:109-110 | the escaped words joined with `\|` split back into exactly those words |
| SyntaxFile.PatternRoundTrip | syntax_highlighter.py:105-112 | the keyword pattern decodes back to the keyword list |
| SyntaxFile.CsvWords | syntax_highlighter.py:107 | keyword words are non-empty and hold no comma or whitespace |
| SyntaxFile.CsvRuleWords | syntax_highlighter.py:105-112 | a list yields a rule exactly when it has words; the rule's pattern lists those words; its token is the upper-cased name with every trailing `s` removed: it has the stripped name's length, the removed characters are all `s`, and the kept name does not end in `s` |
| SyntaxFile.KeywordsListToken | syntax_highlighter.py:111-112 | the list `keywords` gives the token `KEYWORD` |
| SyntaxFile.CsvRules | syntax_highlighter.py:105-114 | at most one rule per keyword list |
| SyntaxFile.CompiledSyntax | syntax_highlighter.py:101-123 | a stored syntax has a non-empty name, the given name when there is one, the regex rules first and the keyword rules after |
| SyntaxFile.StemNonEmpty | syntax_highlighter.py:101-102 | a non-empty file name has a non-empty stem |
| SyntaxFile.LoadAllConsistent | syntax_highlighter.py:25-136 | every stored syntax is stored under its own non-empty name, with no name twice |
| SyntaxFile.LaterReplaces | syntax_highlighter.py:117-123 | a later file with an existing name replaces the syntax but keeps its place; a new name is appended; unreadable and non-`.ini` files change nothing |
| Highlighter.TagNameShared | syntax_highlighter.py:203-204 | two tokens share a tag exactly when their lowercase forms agree |
| Highlighter.FirstContaining | syntax_highlighter.py:198-201 | the fallback key is a key containing the token; there is none exactly when no key contains it |
| Highlighter.FirstContainingIsFirst | syntax_highlighter.py:198-200 | the fallback key is the first key, in insertion order, that contains the token: every earlier key lacks it |
| Highlighter.ChosenTagKey | syntax_highlighter.py:186-201 | the chosen key is a key that contains the token or is its `s`-less form; the exact token wins; none is chosen only when no key fits |
| Highlighter.CoveredMeaning | syntax_highlighter.py:246-252 | a position is tagged exactly when some match covers it |
| Highlighter.AddSpansRanges | syntax_highlighter.py:246-252 | adding matches extends the tag's ranges by the positions they cover and touches no other tag |
| Highlighter.ApplyRulesRanges | syntax_highlighter.py:234-258 | after the apply loop a tag covers its old positions plus the matches of every used rule mapped to it |
| Highlighter.ClearTagsRanges | syntax_highlighter.py:227-232 | the clearing loop empties every rule's tag and leaves other tags alone |
| Highlighter.RetagRanges | syntax_highlighter.py:227-258 | after highlighting, a rule's tag covers exactly the matches of the rules mapped to it; other tags are unchanged |
| Highlighter.RetagIdempotent | syntax_highlighter.py:227-258 | highlighting twice over the same text gives the same tags as once |
| Highlighter.MarksWithin | syntax_highlighter.py:246-252 | every tagged position lies within the text |
| Highlighter.SyntaxForExtFirst | syntax_highlighter.py:141-145 | the lookup finds a syntax exactly when the extension is non-empty and some syntax lists it, and then the first such |
| Highlighter.SyntaxHighlighter.constructor | syntax_highlighter.py:17-136 | the loaded table is the in-order load of the directory's files, with nothing active or pending |
| Highlighter.SyntaxHighlighter.GetSyntaxForFile | syntax_highlighter.py:138-145 | the scan returns the first syntax listing the path's lowercase extension, none for an empty path |
| Highlighter.SyntaxHighlighter.SetSyntax | syntax_highlighter.py:147-153 | a missing or unknown name clears the active syntax; a known one becomes active |
| Highlighter.SyntaxHighlighter.SetSyntaxForFile | syntax_highlighter.py:260-264 | the file's syntax becomes active when there is one; otherwise the active syntax stays |
| Highlighter.SyntaxHighlighter.ScheduleHighlight | syntax_highlighter.py:206-212 | the pending timer is cancelled and a fresh one becomes the only pending one |
| Highlighter.SyntaxHighlighter.Highlight | syntax_highlighter.py:214-258 | the pending timer is forgotten; with an active syntax the tags become the retagging of the text, otherwise they stay |
| Highlighter.SyntaxHighlighter.ClearRuleTags | syntax_highlighter.py:227-232 | the loop's tags equal the clearing function's |
| Highlighter.SyntaxHighlighter.ApplyRuleTags | syntax_highlighter.py:234-258 | the loop's tags equal the apply function's; empty and uncompilable patterns are skipped |
| Highlighter.SyntaxHighlighter.AddMatches | syntax_highlighter.py:246-252 | the loop's tags equal those of adding every match in order |

## Left out

- File system: the directory listings, their order and the file reads are
  inputs. The viewer's catalogue is given, each document carries its
  content, and a syntax file is a name and its lines. A file that cannot be
  read has no lines at all (`None`) and is skipped. An empty readable file
  is not skipped: it gives a syntax named after its file name's stem.
- The failure paths of `load_document` on a read error
  (markdown_viewer.py:297-298) are not modelled, because content is given.
- Tk itself is not modelled: widget styling, fonts, tag colours and
  `tag_configure` calls, including the colour configuration in `set_syntax`
  (syntax_highlighter.py:154-184). `_choose_tag_key` is modelled on its own.
- The window layout, `_build_ui`, `_center_window` and `_search_in_doc` are
  not modelled.
- Message boxes are recorded as alerts in a list.
- The timer is modelled only by its ids: the delay and the later call of
  `highlight` by the event loop are not modelled.
- The regular-expression engine used for user patterns is a parameter
  (`Engine`), assumed to report non-overlapping in-bounds matches. The
  `R"…"` unwrapping (syntax_highlighter.py:74-75) is the parameter `unraw`.
- The exceptions swallowed in `highlight` (`tag_remove`, `tag_add`, text
  retrieval, iteration errors) are not modelled; every call succeeds.
- `SYNTAX_DEBUG` printing and the stored `'file'` path of each syntax are
  not modelled.
- Character handling covers ASCII only: `lower()`, `upper()`, `\s` and `\d`
  are modelled on ASCII letters, ASCII whitespace and ASCII digits. A
  numbered list item whose number uses other Unicode decimal digits
  (such as `٣. item`) is a list item in Python and a paragraph here.
- Viewer.MarkdownViewer.LoadDocument: scrolling is a single character
  offset. Tk's "line.column" indices are not modelled.
- Text.Basename: only `/` separates path components, as on POSIX systems.
  Windows `\` separators are not modelled.
- BalrogNPC.py and test_viewer.py are not part of this model.
