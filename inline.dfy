/**
 * The inline tokenizer of the markdown viewer: a line of text is cut, left
 * to right, into styled runs. At each position the recognisers are tried in
 * a fixed order (link, inline code, bold, italic, checkbox) and the first
 * that matches there is taken; otherwise one plain character is taken.
 *
 * Each recogniser is a regular expression whose character classes exclude
 * their own closing delimiter (`\[([^\]]+)\]\(([^)]+)\)`, `` `([^`]+)` ``,
 * `\*\*([^*]+)\*\*|__([^_]+)__`, `\*([^*]+)\*|_([^_]+)_`, `- \[([ x])\] `),
 * so each has at most one match at a position; here each is stated as a
 * predicate on the run it would produce and computed by a scan.
 */
module Inline {
  import opened Wrappers
  import opened Text

  datatype Run =
    | Link(text: string, target: string)
    | Code(text: string)
    | Bold(text: string, marker: char)
    | Italic(text: string, marker: char)
    | Checkbox(checked: bool)
    | Plain(c: char)

  /** The characters of the input that a run stands for. */
  function Source(r: Run): (src: string)
    ensures |src| >= 1
  {
    match r
    case Link(t, u) => "[" + t + "](" + u + ")"
    case Code(t) => "`" + t + "`"
    case Bold(t, m) => [m, m] + t + [m, m]
    case Italic(t, m) => [m] + t + [m]
    case Checkbox(b) => "- [" + [if b then 'x' else ' '] + "] "
    case Plain(c) => [c]
  }

  predicate IsEmphasisMarker(m: char) { m == '*' || m == '_' }

  /** The runs the recognisers can produce: the character-class restrictions of their patterns. */
  predicate WellFormed(r: Run) {
    match r
    case Link(t, u) => t != [] && ']' !in t && u != [] && ')' !in u
    case Code(t) => t != [] && '`' !in t
    case Bold(t, m) => IsEmphasisMarker(m) && t != [] && m !in t
    case Italic(t, m) => IsEmphasisMarker(m) && t != [] && m !in t
    case Checkbox(_) => true
    case Plain(_) => true
  }

  /** The position of a run's recogniser in the order they are tried. */
  function Rank(r: Run): nat {
    match r
    case Link(_, _) => 0
    case Code(_) => 1
    case Bold(_, _) => 2
    case Italic(_, _) => 3
    case Checkbox(_) => 4
    case Plain(_) => 5
  }

  /** The recogniser of `r` matches `s` at position `i` (a prefix match of `s[i..]`). */
  predicate MatchesAt(s: string, i: nat, r: Run) {
    WellFormed(r) && OccursAt(s, Source(r), i)
  }

  /**
   * The first `close` after position `i + 1`, provided the text between
   * them is not empty.
   */
  function Delimited(s: string, i: nat, close: char): (r: Option<nat>)
    ensures r.Some? ==> (i + 1 < r.value < |s| && s[r.value] == close
      && forall k :: i + 1 <= k < r.value ==> s[k] != close)
  {
    match FindFrom(s, i + 1, close)
    case None => None
    case Some(j) => if j > i + 1 then Some(j) else None
  }

  lemma DelimitedUnique(s: string, i: nat, close: char, t: string)
    requires i + 1 + |t| < |s| && t != [] && close !in t
    requires s[i + 1..i + 1 + |t|] == t && s[i + 1 + |t|] == close
    ensures Delimited(s, i, close) == Some(i + 1 + |t|)
  {
    var j := i + 1 + |t|;
    assert forall k :: i + 1 <= k < j ==> s[k] == t[k - i - 1];
  }

  /** What a link at `i` says about the characters of `s`. */
  lemma LinkChars(s: string, i: nat, t: string, u: string)
    requires OccursAt(s, Source(Link(t, u)), i)
    ensures i + 3 + |t| + |u| < |s|
    ensures s[i] == '[' && s[i + 1..i + 1 + |t|] == t && s[i + 1 + |t|] == ']'
    ensures s[i + 2 + |t|] == '(' && s[i + 3 + |t|..i + 3 + |t| + |u|] == u
    ensures s[i + 3 + |t| + |u|] == ')'
  {
    var src := Source(Link(t, u));
    var w := s[i..i + |src|];
    assert w == src;
    assert src == "[" + t + "](" + u + ")";
    assert src[1..1 + |t|] == t;
    assert src[3 + |t|..3 + |t| + |u|] == u;
    SliceOfSlice(s, i, i + |src|, 1, 1 + |t|);
    SliceOfSlice(s, i, i + |src|, 3 + |t|, 3 + |t| + |u|);
  }

  /** `\[([^\]]+)\]\(([^)]+)\)` at position `i`. */
  function MatchLink(s: string, i: nat): (r: Option<Run>)
    ensures r.Some? ==> r.value.Link?
  {
    if i < |s| && s[i] == '[' then
      match Delimited(s, i, ']')
      case None => None
      case Some(j) =>
        if j + 1 < |s| && s[j + 1] == '(' then
          match Delimited(s, j + 1, ')')
          case None => None
          case Some(k) =>
            Some(Link(s[i + 1..j], s[j + 2..k]))
        else None
    else None
  }

  /** A link the scan finds matches where it was found. */
  lemma LinkFound(s: string, i: nat)
    requires MatchLink(s, i).Some?
    ensures MatchesAt(s, i, MatchLink(s, i).value)
  {
    var j := Delimited(s, i, ']').value;
    var k := Delimited(s, j + 1, ')').value;
    MatchLinkFound(s, i, j, k);
    LinkSource(s, i, j, k);
  }

  /** The characters from `i` to a `]` at `j` and a `)` at `k` spell out a link. */
  lemma LinkSource(s: string, i: nat, j: nat, k: nat)
    requires i + 1 < j && j + 2 < k < |s| && s[i] == '[' && s[j] == ']' && s[j + 1] == '(' && s[k] == ')'
    requires forall x :: i + 1 <= x < j ==> s[x] != ']'
    requires forall x :: j + 2 <= x < k ==> s[x] != ')'
    ensures MatchesAt(s, i, Link(s[i + 1..j], s[j + 2..k]))
  {
    var t, u := s[i + 1..j], s[j + 2..k];
    assert s[i..k + 1] == s[i..i + 1] + t + s[j..j + 2] + u + s[k..k + 1];
    assert s[i..i + 1] == "[" && s[j..j + 2] == "](" && s[k..k + 1] == ")";
    assert forall x :: 0 <= x < |t| ==> t[x] == s[i + 1 + x];
    assert forall x :: 0 <= x < |u| ==> u[x] == s[j + 2 + x];
  }

  /** A link has only one reading at a position, and the scan finds it. */
  lemma LinkUnique(s: string, i: nat, t: string, u: string)
    requires MatchesAt(s, i, Link(t, u))
    ensures MatchLink(s, i) == Some(Link(t, u))
  {
    LinkChars(s, i, t, u);
    LinkAt(s, i, t, u);
  }

  /** The scan finds a well-formed link whose characters are in place at `i`. */
  lemma LinkAt(s: string, i: nat, t: string, u: string)
    requires i + 3 + |t| + |u| < |s| && t != [] && ']' !in t && u != [] && ')' !in u
    requires s[i] == '[' && s[i + 1..i + 1 + |t|] == t && s[i + 1 + |t|] == ']'
    requires s[i + 2 + |t|] == '(' && s[i + 3 + |t|..i + 3 + |t| + |u|] == u
    requires s[i + 3 + |t| + |u|] == ')'
    ensures MatchLink(s, i) == Some(Link(t, u))
  {
    var j := i + 1 + |t|;
    DelimitedUnique(s, i, ']', t);
    DelimitedUnique(s, j + 1, ')', u);
    MatchLinkFound(s, i, j, j + 2 + |u|);
  }

  /** The link the scan takes once both delimiters are found. */
  lemma MatchLinkFound(s: string, i: nat, j: nat, k: nat)
    requires i < |s| && s[i] == '[' && Delimited(s, i, ']') == Some(j)
    requires j + 1 < |s| && s[j + 1] == '(' && Delimited(s, j + 1, ')') == Some(k)
    ensures MatchLink(s, i) == Some(Link(s[i + 1..j], s[j + 2..k]))
  {
  }

  /** The delimiter of an emphasis or code span: `n` copies of `m`. */
  function Marks(m: char, n: nat): string
    requires n == 1 || n == 2
  {
    if n == 1 then [m] else [m, m]
  }

  lemma EnclosedChars(s: string, i: nat, m: char, n: nat, t: string)
    requires n == 1 || n == 2
    requires OccursAt(s, Marks(m, n) + t + Marks(m, n), i)
    ensures i + 2 * n + |t| <= |s|
    ensures s[i..i + n] == Marks(m, n) && s[i + n..i + n + |t|] == t
    ensures s[i + n + |t|..i + 2 * n + |t|] == Marks(m, n)
  {
    var src := Marks(m, n) + t + Marks(m, n);
    var w := s[i..i + |src|];
    assert w == src;
    assert src[..n] == Marks(m, n) && src[n..n + |t|] == t && src[n + |t|..] == Marks(m, n);
    SliceOfSlice(s, i, i + |src|, 0, n);
    SliceOfSlice(s, i, i + |src|, n, n + |t|);
    SliceOfSlice(s, i, i + |src|, n + |t|, 2 * n + |t|);
  }

  /** The text enclosed by `Marks(m, n)` on both sides at `i`. */
  function MatchEnclosed(s: string, i: nat, m: char, n: nat): (r: Option<string>)
    requires n == 1 || n == 2
    ensures r.Some? ==> r.value != []
  {
    if i + n <= |s| && s[i..i + n] == Marks(m, n) then
      match Delimited(s, i + n - 1, m)
      case None => None
      case Some(j) =>
        if j + n <= |s| && s[j..j + n] == Marks(m, n) then Some(s[i + n..j]) else None
    else None
  }

  /** Enclosed text the scan finds holds no marker and is enclosed by the marks at `i`. */
  lemma EnclosedFound(s: string, i: nat, m: char, n: nat)
    requires n == 1 || n == 2
    requires MatchEnclosed(s, i, m, n).Some?
    ensures m !in MatchEnclosed(s, i, m, n).value
    ensures OccursAt(s, Marks(m, n) + MatchEnclosed(s, i, m, n).value + Marks(m, n), i)
  {
    var j := Delimited(s, i + n - 1, m).value;
    var t := s[i + n..j];
    assert MatchEnclosed(s, i, m, n).value == t;
    assert forall k :: 0 <= k < |t| ==> t[k] == s[i + n + k];
    assert s[i..j + n] == s[i..i + n] + t + s[j..j + n];
  }

  lemma EnclosedUnique(s: string, i: nat, m: char, n: nat, t: string)
    requires n == 1 || n == 2
    requires t != [] && m !in t && OccursAt(s, Marks(m, n) + t + Marks(m, n), i)
    ensures MatchEnclosed(s, i, m, n) == Some(t)
  {
    EnclosedChars(s, i, m, n, t);
    assert s[i + n + |t|] == m;
    DelimitedUnique(s, i + n - 1, m, t);
  }

  /** `` `([^`]+)` `` at position `i`. */
  function MatchCode(s: string, i: nat): (r: Option<Run>)
    ensures r.Some? ==> r.value.Code?
  {
    var e := MatchEnclosed(s, i, '`', 1);
    if e.Some? then Some(Code(e.value)) else None
  }

  /** Inline code the scan finds matches where it was found. */
  lemma CodeFound(s: string, i: nat)
    requires MatchCode(s, i).Some?
    ensures MatchesAt(s, i, MatchCode(s, i).value)
  {
    EnclosedFound(s, i, '`', 1);
  }

  lemma CodeUnique(s: string, i: nat, t: string)
    requires MatchesAt(s, i, Code(t))
    ensures MatchCode(s, i) == Some(Code(t))
  {
    EnclosedUnique(s, i, '`', 1, t);
  }

  /** `\*\*([^*]+)\*\*|__([^_]+)__` at position `i`. */
  function MatchBold(s: string, i: nat): (r: Option<Run>)
    ensures r.Some? ==> r.value.Bold?
  {
    var star := MatchEnclosed(s, i, '*', 2);
    if star.Some? then Some(Bold(star.value, '*'))
    else
      var under := MatchEnclosed(s, i, '_', 2);
      if under.Some? then Some(Bold(under.value, '_')) else None
  }

  /** Bold text the scan finds matches where it was found. */
  lemma BoldFound(s: string, i: nat)
    requires MatchBold(s, i).Some?
    ensures MatchesAt(s, i, MatchBold(s, i).value)
  {
    if MatchEnclosed(s, i, '*', 2).Some? {
      EnclosedFound(s, i, '*', 2);
    } else {
      EnclosedFound(s, i, '_', 2);
    }
  }

  lemma BoldUnique(s: string, i: nat, t: string, m: char)
    requires MatchesAt(s, i, Bold(t, m))
    ensures MatchBold(s, i) == Some(Bold(t, m))
  {
    assert Source(Bold(t, m)) == Marks(m, 2) + t + Marks(m, 2);
    EnclosedUnique(s, i, m, 2, t);
    if m == '_' {
      EnclosedChars(s, i, m, 2, t);
      assert s[i..i + 2] != Marks('*', 2) by { assert s[i..i + 2][0] == '_'; }
    }
  }

  /** `\*([^*]+)\*|_([^_]+)_` at position `i`. */
  function MatchItalic(s: string, i: nat): (r: Option<Run>)
    ensures r.Some? ==> r.value.Italic?
  {
    var star := MatchEnclosed(s, i, '*', 1);
    if star.Some? then Some(Italic(star.value, '*'))
    else
      var under := MatchEnclosed(s, i, '_', 1);
      if under.Some? then Some(Italic(under.value, '_')) else None
  }

  /** Italic text the scan finds matches where it was found. */
  lemma ItalicFound(s: string, i: nat)
    requires MatchItalic(s, i).Some?
    ensures MatchesAt(s, i, MatchItalic(s, i).value)
  {
    if MatchEnclosed(s, i, '*', 1).Some? {
      EnclosedFound(s, i, '*', 1);
    } else {
      EnclosedFound(s, i, '_', 1);
    }
  }

  lemma ItalicUnique(s: string, i: nat, t: string, m: char)
    requires MatchesAt(s, i, Italic(t, m))
    ensures MatchItalic(s, i) == Some(Italic(t, m))
  {
    assert Source(Italic(t, m)) == Marks(m, 1) + t + Marks(m, 1);
    EnclosedUnique(s, i, m, 1, t);
    if m == '_' {
      EnclosedChars(s, i, m, 1, t);
      assert s[i..i + 1] != Marks('*', 1) by { assert s[i..i + 1][0] == '_'; }
    }
  }

  /** `- \[([ x])\] ` at position `i`. */
  function MatchCheckbox(s: string, i: nat): (r: Option<Run>)
    ensures r.Some? ==> r.value.Checkbox? && MatchesAt(s, i, r.value)
  {
    if OccursAt(s, Source(Checkbox(true)), i) then Some(Checkbox(true))
    else if OccursAt(s, Source(Checkbox(false)), i) then Some(Checkbox(false))
    else None
  }

  /** A checkbox is checked exactly when its bracket holds a lowercase `x`. */
  lemma CheckboxChecked(s: string, i: nat, b: bool)
    requires MatchesAt(s, i, Checkbox(b))
    ensures i + 6 <= |s| && (b <==> s[i + 3] == 'x')
    ensures MatchCheckbox(s, i) == Some(Checkbox(b))
  {
    var src := Source(Checkbox(b));
    assert s[i..i + 6] == src;
    assert s[i + 3] == src[3];
  }

  /** The recogniser of rank `k`: link, inline code, bold, italic, checkbox. */
  function Recognise(s: string, i: nat, k: nat): (r: Option<Run>)
    requires k < 5
    ensures r.Some? ==> Rank(r.value) == k
  {
    if k == 0 then MatchLink(s, i)
    else if k == 1 then MatchCode(s, i)
    else if k == 2 then MatchBold(s, i)
    else if k == 3 then MatchItalic(s, i)
    else MatchCheckbox(s, i)
  }

  /** A run a recogniser finds matches where it was found. */
  lemma RecogniseFound(s: string, i: nat, k: nat)
    requires k < 5 && Recognise(s, i, k).Some?
    ensures MatchesAt(s, i, Recognise(s, i, k).value)
  {
    if k == 0 {
      LinkFound(s, i);
    } else if k == 1 {
      CodeFound(s, i);
    } else if k == 2 {
      BoldFound(s, i);
    } else if k == 3 {
      ItalicFound(s, i);
    }
  }

  /**
   * The recognisers of rank `k` and later, tried in order at `i`: the
   * first that matches gives the run; one plain character is taken when
   * none does.
   */
  function TryFrom(s: string, i: nat, k: nat): (r: Run)
    requires i < |s| && k <= 5
    decreases |s| + 5 - k, 1
  {
    if k == 5 then Plain(s[i]) else TryRank(s, i, k)
  }

  /** The recogniser of rank `k` if it matches at `i`, the later ones otherwise. */
  function TryRank(s: string, i: nat, k: nat): (r: Run)
    requires i < |s| && k < 5
    decreases |s| + 5 - k, 0
  {
    match Recognise(s, i, k)
    case Some(r) => r
    case None => TryFrom(s, i, k + 1)
  }

  /** The run taken at position `i`. */
  function NextRun(s: string, i: nat): Run
    requires i < |s|
  {
    TryFrom(s, i, 0)
  }

  /** One step of the order: the recogniser of rank `k` is tried before the later ones. */
  lemma TryStep(s: string, i: nat, k: nat)
    requires i < |s| && k < 5
    ensures Recognise(s, i, k).Some? ==> TryFrom(s, i, k) == Recognise(s, i, k).value
    ensures Recognise(s, i, k).None? ==> TryFrom(s, i, k) == TryFrom(s, i, k + 1)
  {
    assert TryFrom(s, i, k) == TryRank(s, i, k);
  }

  /** The run taken by the recognisers of rank `k` and later matches at `i`. */
  lemma {:induction false} TryFromMatches(s: string, i: nat, k: nat)
    requires i < |s| && k <= 5
    ensures MatchesAt(s, i, TryFrom(s, i, k)) && k <= Rank(TryFrom(s, i, k))
    decreases 5 - k
  {
    if k == 5 {
      assert s[i..i + 1] == [s[i]];
    } else {
      TryStep(s, i, k);
      if Recognise(s, i, k).None? {
        TryFromMatches(s, i, k + 1);
      } else {
        RecogniseFound(s, i, k);
      }
    }
  }

  /** The run taken at `i` matches there. */
  lemma NextRunMatches(s: string, i: nat)
    requires i < |s|
    ensures MatchesAt(s, i, NextRun(s, i))
  {
    TryFromMatches(s, i, 0);
  }

  /** When no recogniser matches, one plain character is taken. */
  lemma TryLast(s: string, i: nat)
    requires i < |s|
    ensures TryFrom(s, i, 5) == Plain(s[i])
  {
  }

  /** A run that matches at `i` is the one its own recogniser finds there. */
  lemma RecogniseUnique(s: string, i: nat, r: Run)
    requires MatchesAt(s, i, r) && Rank(r) < 5
    ensures Recognise(s, i, Rank(r)) == Some(r)
  {
    match r
    case Link(t, u) => LinkUnique(s, i, t, u);
    case Code(t) => CodeUnique(s, i, t);
    case Bold(t, m) => BoldUnique(s, i, t, m);
    case Italic(t, m) => ItalicUnique(s, i, t, m);
    case Checkbox(b) => CheckboxChecked(s, i, b);
  }

  lemma {:induction false} TryFromWins(s: string, i: nat, k: nat, r: Run)
    requires i < |s| && k <= Rank(r) && MatchesAt(s, i, r)
    ensures TryFrom(s, i, k) == r || Rank(TryFrom(s, i, k)) < Rank(r)
    decreases 5 - k
  {
    if k == 5 {
      assert s[i..i + 1] == Source(r);
    } else {
      TryStep(s, i, k);
      if k == Rank(r) {
        RecogniseUnique(s, i, r);
      } else if Recognise(s, i, k).None? {
        TryFromWins(s, i, k + 1, r);
      }
    }
  }

  /**
   * First match wins: any run whose recogniser matches at `i` is either
   * the one taken or comes later in the order; a plain character is taken
   * only when no recogniser matches.
   */
  lemma FirstMatchWins(s: string, i: nat, r: Run)
    requires i < |s| && MatchesAt(s, i, r)
    ensures NextRun(s, i) == r || Rank(NextRun(s, i)) < Rank(r)
  {
    TryFromWins(s, i, 0, r);
  }

  /** The runs of `s[i..]`, in order. */
  function Tokenize(s: string, i: nat): (runs: seq<Run>)
    decreases |s| - i, 1
  {
    if i >= |s| then [] else TokenizeAt(s, i)
  }

  /** The runs of `s[i..]` for a position inside `s`: the run taken there, then the rest. */
  function TokenizeAt(s: string, i: nat): (runs: seq<Run>)
    requires i < |s|
    decreases |s| - i, 0
  {
    var r := NextRun(s, i);
    [r] + Tokenize(s, i + |Source(r)|)
  }

  /** The concatenated sources of a sequence of runs. */
  function Sources(runs: seq<Run>): string
  {
    if runs == [] then [] else Source(runs[0]) + Sources(runs[1..])
  }

  lemma SourcesCons(r: Run, rest: seq<Run>)
    ensures Sources([r] + rest) == Source(r) + Sources(rest)
  {
    assert ([r] + rest)[1..] == rest;
  }

  lemma TokenizeStep(s: string, i: nat)
    requires i < |s|
    ensures Tokenize(s, i) == [NextRun(s, i)] + Tokenize(s, i + |Source(NextRun(s, i))|)
  {
    assert Tokenize(s, i) == TokenizeAt(s, i);
  }

  lemma NextRunConsumes(s: string, i: nat)
    requires i < |s|
    ensures i + |Source(NextRun(s, i))| <= |s|
    ensures s[i..i + |Source(NextRun(s, i))|] == Source(NextRun(s, i))
    ensures WellFormed(NextRun(s, i))
  {
    NextRunMatches(s, i);
  }

  /** The run taken at `i` ends within the text. */
  lemma NextRunFits(s: string, i: nat)
    requires i < |s|
    ensures i + |Source(NextRun(s, i))| <= |s|
  {
    NextRunConsumes(s, i);
  }

  /** A run spelling out the text at `i`, followed by runs spelling out the rest, spells out `s[i..]`. */
  lemma PartitionStep(s: string, i: nat, r: Run, rest: seq<Run>)
    requires i + |Source(r)| <= |s| && s[i..i + |Source(r)|] == Source(r)
    requires Sources(rest) == s[i + |Source(r)|..]
    ensures Sources([r] + rest) == s[i..]
  {
    SourcesCons(r, rest);
    assert s[i..] == s[i..i + |Source(r)|] + s[i + |Source(r)|..];
  }

  /** The runs from `i` spell out `s[i..]` when those after the run taken at `i` spell out the rest. */
  lemma PartitionAt(s: string, i: nat)
    requires i < |s|
    requires i + |Source(NextRun(s, i))| <= |s|
    requires Sources(Tokenize(s, i + |Source(NextRun(s, i))|)) == s[i + |Source(NextRun(s, i))|..]
    ensures Sources(Tokenize(s, i)) == s[i..]
  {
    NextRunConsumes(s, i);
    TokenizeStep(s, i);
    PartitionStep(s, i, NextRun(s, i), Tokenize(s, i + |Source(NextRun(s, i))|));
  }

  /** The runs partition the input: their sources, in order, spell out exactly `s[i..]`. */
  lemma {:induction false} TokenizePartition(s: string, i: nat)
    requires i <= |s|
    ensures Sources(Tokenize(s, i)) == s[i..]
    decreases |s| - i
  {
    if i < |s| {
      NextRunFits(s, i);
      TokenizePartition(s, i + |Source(NextRun(s, i))|);
      PartitionAt(s, i);
    } else {
      assert s[i..] == [];
    }
  }

  /** The characters a recogniser can start with. */
  predicate IsMarkupStart(c: char) { c == '[' || c == '`' || c == '*' || c == '_' || c == '-' }

  lemma RunStart(s: string, i: nat, r: Run)
    requires MatchesAt(s, i, r)
    ensures i < |s| && s[i] == Source(r)[0]
  {
    assert s[i..i + |Source(r)|][0] == s[i];
  }

  /** Only a plain run can start at a character no recogniser starts with. */
  lemma NoMarkupIsPlain(s: string, i: nat)
    requires i < |s| && !IsMarkupStart(s[i])
    ensures NextRun(s, i) == Plain(s[i])
  {
    NextRunMatches(s, i);
    RunStart(s, i, NextRun(s, i));
  }

  lemma PlainStep(s: string, i: nat)
    requires i < |s| && NextRun(s, i) == Plain(s[i])
    ensures Tokenize(s, i) == [Plain(s[i])] + Tokenize(s, i + 1)
  {
    TokenizeStep(s, i);
    assert Source(Plain(s[i])) == [s[i]];
  }

  /** Text without any markup character is cut into one plain run per character. */
  lemma {:induction false} TokenizeNoMarkup(s: string, i: nat)
    requires i <= |s| && forall j :: i <= j < |s| ==> !IsMarkupStart(s[j])
    ensures |Tokenize(s, i)| == |s| - i
    ensures forall k :: 0 <= k < |s| - i ==> Tokenize(s, i)[k] == Plain(s[i + k])
    decreases |s| - i
  {
    if i < |s| {
      NoMarkupIsPlain(s, i);
      PlainStep(s, i);
      TokenizeNoMarkup(s, i + 1);
      var rest := Tokenize(s, i + 1);
      forall k | 0 <= k < |s| - i ensures Tokenize(s, i)[k] == Plain(s[i + k]) {
        if k > 0 { assert Tokenize(s, i)[k] == rest[k - 1]; }
      }
    }
  }

  /** Without a `-` in the text no checkbox run is ever taken. */
  lemma {:induction false} NoDashNoCheckbox(s: string, i: nat)
    requires i <= |s| && forall j :: i <= j < |s| ==> s[j] != '-'
    ensures forall k :: 0 <= k < |Tokenize(s, i)| ==> !Tokenize(s, i)[k].Checkbox?
    decreases |s| - i
  {
    if i < |s| {
      var r := NextRun(s, i);
      var n := |Source(r)|;
      TokenizeStep(s, i);
      NextRunConsumes(s, i);
      NextRunMatches(s, i);
      RunStart(s, i, r);
      assert !r.Checkbox?;
      NoDashNoCheckbox(s, i + n);
      var rest := Tokenize(s, i + n);
      var t := Tokenize(s, i);
      assert t == [r] + rest;
      forall k | 0 <= k < |t| ensures !t[k].Checkbox? {
        if k > 0 { assert t[k] == rest[k - 1]; }
      }
    }
  }

}
