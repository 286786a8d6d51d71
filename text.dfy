/**
 * The string operations of Python's `str`, `os.path` and `re` that the
 * viewer and the highlighter rely on, restricted to ASCII: `\s`,
 * `str.strip()` and `str.isspace()` recognise the ASCII whitespace
 * characters only, `lower()`/`upper()` map only A-Z and a-z.
 */
module Text {
  import opened Wrappers

  /** ASCII characters for which Python's `str.isspace()` (and `\s`) hold. */
  predicate IsSpace(c: char) {
    ('\t' <= c <= '\r') || ('\U{001C}' <= c <= ' ')
  }

  predicate IsDigit(c: char) { '0' <= c <= '9' }

  predicate IsLowerAlnum(c: char) { ('a' <= c <= 'z') || IsDigit(c) }

  function Lower(c: char): char {
    if 'A' <= c <= 'Z' then (c as int - 'A' as int + 'a' as int) as char else c
  }

  function Upper(c: char): char {
    if 'a' <= c <= 'z' then (c as int - 'a' as int + 'A' as int) as char else c
  }

  /** `s.lower()` */
  function LowerStr(s: string): (r: string)
    ensures |r| == |s| && forall j :: 0 <= j < |s| ==> r[j] == Lower(s[j])
  {
    if s == [] then [] else [Lower(s[0])] + LowerStr(s[1..])
  }

  /** `s.upper()` */
  function UpperStr(s: string): (r: string)
    ensures |r| == |s| && forall j :: 0 <= j < |s| ==> r[j] == Upper(s[j])
  {
    if s == [] then [] else [Upper(s[0])] + UpperStr(s[1..])
  }

  /** `s.lstrip()`: the longest suffix not starting with whitespace. */
  function LStrip(s: string): (r: string)
    ensures |r| <= |s| && (|r| == |s| ==> r == s) && (|r| < |s| ==> r == s[|s| - |r|..])
    ensures forall j :: 0 <= j < |s| - |r| ==> IsSpace(s[j])
    ensures r != [] ==> !IsSpace(r[0])
  {
    if s != [] && IsSpace(s[0]) then LStrip(s[1..]) else s
  }

  lemma LStripOne(s: string)
    requires |s| >= 2 && IsSpace(s[0]) && !IsSpace(s[1])
    ensures LStrip(s) == s[1..]
  {
    assert LStrip(s[1..]) == s[1..];
  }

  /** A string with no whitespace at either end is its own `strip()`. */
  lemma StripUnchanged(s: string)
    requires s != [] ==> !IsSpace(s[0]) && !IsSpace(s[|s| - 1])
    ensures Strip(s) == s
  {
    assert LStrip(s) == s;
    assert RStrip(s) == s;
  }

  /** `strip()` keeps a first character that is not whitespace. */
  lemma StripHead(s: string)
    requires s != [] && !IsSpace(s[0])
    ensures Strip(s) != [] && Strip(s)[0] == s[0]
  {
    assert LStrip(s) == s;
    var r := RStrip(s);
    assert r != [];
    assert r[0] == s[..|r|][0];
  }

  /** `s.rstrip()`: the longest prefix not ending with whitespace. */
  function RStrip(s: string): (r: string)
    ensures |r| <= |s| && (|r| == |s| ==> r == s) && (|r| < |s| ==> r == s[..|r|])
    ensures forall j :: |r| <= j < |s| ==> IsSpace(s[j])
    ensures r != [] ==> !IsSpace(r[|r| - 1])
  {
    if s != [] && IsSpace(s[|s| - 1]) then RStrip(s[..|s| - 1]) else s
  }

  /** `s.strip()` */
  function Strip(s: string): (r: string)
    ensures |r| <= |s|
    ensures r != [] ==> !IsSpace(r[0]) && !IsSpace(r[|r| - 1])
    ensures r == [] <==> forall j :: 0 <= j < |s| ==> IsSpace(s[j])
  {
    RStrip(LStrip(s))
  }

  /** `s.lstrip(c)` for a single character `c`. */
  function LStripChar(s: string, c: char): (r: string)
    ensures |r| <= |s| && (|r| == |s| ==> r == s) && (|r| < |s| ==> r == s[|s| - |r|..])
    ensures forall j :: 0 <= j < |s| - |r| ==> s[j] == c
    ensures r != [] ==> r[0] != c
  {
    if s != [] && s[0] == c then LStripChar(s[1..], c) else s
  }

  /** `s.rstrip(c)` for a single character `c`. */
  function RStripChar(s: string, c: char): (r: string)
    ensures |r| <= |s| && (|r| == |s| ==> r == s) && (|r| < |s| ==> r == s[..|r|])
    ensures forall j :: |r| <= j < |s| ==> s[j] == c
    ensures r != [] ==> r[|r| - 1] != c
  {
    if s != [] && s[|s| - 1] == c then RStripChar(s[..|s| - 1], c) else s
  }

  predicate StartsWith(s: string, p: string) { |p| <= |s| && s[..|p|] == p }

  predicate EndsWith(s: string, p: string) { |p| <= |s| && s[|s| - |p|..] == p }

  lemma SliceOfSlice(s: string, a: nat, b: nat, c: nat, d: nat)
    requires a <= b <= |s| && c <= d <= b - a
    ensures s[a..b][c..d] == s[a + c..a + d]
  {
    assert forall k :: 0 <= k < d - c ==> s[a..b][c..d][k] == s[a + c + k];
  }

  /** `p in s` for strings: `p` occurs at some position of `s`. */
  predicate OccursAt(s: string, p: string, k: nat) { k + |p| <= |s| && s[k..k + |p|] == p }

  function HasSubstring(s: string, p: string): (b: bool)
    ensures b <==> exists k: nat :: OccursAt(s, p, k)
  {
    if OccursAt(s, p, 0) then true
    else if s == [] then false
    else
      var b := HasSubstring(s[1..], p);
      assert forall k: nat :: OccursAt(s[1..], p, k) <==> OccursAt(s, p, k + 1);
      assert b ==> exists k: nat :: OccursAt(s, p, k) by {
        if b { var k: nat :| OccursAt(s[1..], p, k); assert OccursAt(s, p, k + 1); }
      }
      assert (exists k: nat :: OccursAt(s, p, k)) ==> b by {
        if exists k: nat :: OccursAt(s, p, k) {
          var k: nat :| OccursAt(s, p, k);
          assert k != 0;
          assert OccursAt(s[1..], p, k - 1);
        }
      }
      b
  }

  /** The first index at or after `from` holding `c`. */
  function FindFrom(s: string, from: nat, c: char): (r: Option<nat>)
    decreases |s| - from
    ensures r.Some? ==> (from <= r.value < |s| && s[r.value] == c
      && forall j :: from <= j < r.value ==> s[j] != c)
    ensures r.None? ==> forall j :: from <= j < |s| ==> s[j] != c
  {
    if from >= |s| then None
    else if s[from] == c then Some(from)
    else FindFrom(s, from + 1, c)
  }

  /** `s.rfind(c)` */
  function LastIndex(s: string, c: char): (r: Option<nat>)
    ensures r.Some? ==> (r.value < |s| && s[r.value] == c
      && forall j :: r.value < j < |s| ==> s[j] != c)
    ensures r.None? ==> c !in s
  {
    if s == [] then None
    else if s[|s| - 1] == c then Some(|s| - 1)
    else LastIndex(s[..|s| - 1], c)
  }

  /** `os.path.basename(p)` (POSIX separator `/`). */
  function Basename(p: string): (r: string)
    ensures '/' !in r && |r| <= |p|
    ensures |r| == |p| ==> r == p
    ensures |r| < |p| ==> p[|p| - |r|..] == r && p[|p| - |r| - 1] == '/'
  {
    match LastIndex(p, '/')
    case None => p
    case Some(k) => p[k + 1..]
  }

  /** True when `s[..d]` holds a character other than a dot. */
  predicate NonDotBefore(s: string, d: nat)
    requires d <= |s|
  {
    exists j :: 0 <= j < d && s[j] != '.'
  }

  /**
   * The position of the extension dot of `os.path.splitext(p)`: the last
   * dot, provided it lies in the last path component and that component
   * has a non-dot character before it.
   */
  function ExtDot(p: string): (r: Option<nat>)
    ensures r.Some? ==> (r.value < |p| && p[r.value] == '.' && '.' !in p[r.value + 1..]
      && '/' !in p[r.value..])
  {
    var b := Basename(p);
    var off := |p| - |b|;
    match LastIndex(b, '.')
    case None => None
    case Some(d) =>
      if NonDotBefore(b, d) then
        assert p[off + d..] == b[d..];
        Some(off + d)
      else None
  }

  /** `os.path.splitext(p)[0]` */
  function StripExt(p: string): (r: string)
    ensures StartsWith(p, r)
  {
    match ExtDot(p)
    case None => p
    case Some(d) => p[..d]
  }

  /** `os.path.splitext(p)[1]`: empty or a dot followed by non-dots. */
  function Ext(p: string): (r: string)
    ensures p == StripExt(p) + r
    ensures r != [] ==> r[0] == '.' && '.' !in r[1..] && '/' !in r
  {
    match ExtDot(p)
    case None => []
    case Some(d) => ExtFrom(p, d)
  }

  /** The extension starting at the dot `d`. */
  function ExtFrom(p: string, d: nat): (e: string)
    requires d < |p| && p[d] == '.' && '.' !in p[d + 1..] && '/' !in p[d..]
    ensures p == p[..d] + e && e != [] && e[0] == '.' && '.' !in e[1..] && '/' !in e
  {
    var e := p[d..];
    assert p == p[..d] + e;
    assert e[1..] == p[d + 1..];
    e
  }

  /** `c * n` */
  function Repeat(c: char, n: nat): (r: string)
    ensures |r| == n && forall j :: 0 <= j < n ==> r[j] == c
  {
    seq(n, _ => c)
  }

  /** `s.ljust(n)`: pad with spaces on the right up to width `n`. */
  function LJust(s: string, n: nat): (r: string)
    ensures StartsWith(r, s) && |r| == if |s| < n then n else |s|
    ensures forall j :: |s| <= j < |r| ==> r[j] == ' '
  {
    if |s| < n then s + Repeat(' ', n - |s|) else s
  }

  /**
   * `s.split(sep)` generalised to a set of separator characters, which is
   * also `re.split('[...]', s)` for a one-character class.
   */
  function SplitBy(s: string, seps: set<char>): (r: seq<string>)
    ensures |r| >= 1
    ensures forall k :: 0 <= k < |r| ==> forall j :: 0 <= j < |r[k]| ==> r[k][j] !in seps
    decreases |s|, 1
  {
    SplitStep(s, seps)
  }

  /** The pieces of `s`, by cases on its first character. */
  function SplitStep(s: string, seps: set<char>): (r: seq<string>)
    ensures |r| >= 1
    ensures forall k :: 0 <= k < |r| ==> forall j :: 0 <= j < |r[k]| ==> r[k][j] !in seps
    decreases |s|, 0
  {
    if s == [] then [[]]
    else
      var rest := SplitBy(s[1..], seps);
      if s[0] in seps then [[]] + rest else [[s[0]] + rest[0]] + rest[1..]
  }

  /** Splitting a string that starts with `c`: a separator opens a new piece, anything else joins the first. */
  lemma SplitCons(c: char, t: string, seps: set<char>)
    ensures SplitBy([c] + t, seps)
      == if c in seps then [[]] + SplitBy(t, seps) else [[c] + SplitBy(t, seps)[0]] + SplitBy(t, seps)[1..]
  {
    assert ([c] + t)[1..] == t;
  }

  /** A piece free of separators, then a separator: the piece comes first, then the pieces of the rest. */
  lemma {:induction false} SplitPiece(p: string, c: char, t: string, seps: set<char>)
    requires c in seps && forall j :: 0 <= j < |p| ==> p[j] !in seps
    ensures SplitBy(p + [c] + t, seps) == [p] + SplitBy(t, seps)
    decreases |p|
  {
    if p == [] {
      assert p + [c] + t == [c] + t;
      SplitCons(c, t, seps);
    } else {
      assert p + [c] + t == [p[0]] + (p[1..] + [c] + t);
      SplitPiece(p[1..], c, t, seps);
      SplitCons(p[0], p[1..] + [c] + t, seps);
      assert [p[0]] + p[1..] == p;
    }
  }

  /** `sep.join(pieces)` */
  function JoinWith(pieces: seq<string>, sep: char): string
  {
    if pieces == [] then []
    else if |pieces| == 1 then pieces[0]
    else pieces[0] + [sep] + JoinWith(pieces[1..], sep)
  }

  /** Splitting on one character and joining on it again gives back the string. */
  lemma {:induction false} SplitJoin(s: string, c: char)
    ensures JoinWith(SplitBy(s, {c}), c) == s
  {
    if s != [] {
      SplitJoin(s[1..], c);
      var rest := SplitBy(s[1..], {c});
      if s[0] != c {
        if |rest| > 1 {
          assert JoinWith(rest, c) == rest[0] + [c] + JoinWith(rest[1..], c);
          assert JoinWith([[s[0]] + rest[0]] + rest[1..], c)
              == ([s[0]] + rest[0]) + [c] + JoinWith(rest[1..], c);
        }
      }
    }
  }

  /**
   * The maximal runs of non-separator characters, in order: what
   * `[w for w in re.split('[...]+', s) if w]` yields.
   */
  function Words(s: string, seps: set<char>): (r: seq<string>)
    ensures forall k :: 0 <= k < |r| ==> r[k] != [] && forall j :: 0 <= j < |r[k]| ==> r[k][j] !in seps
  {
    Nonempty(SplitBy(s, seps))
  }

  /** The pieces that are not empty, in order. */
  function Nonempty(pieces: seq<string>): (r: seq<string>)
    ensures forall k :: 0 <= k < |r| ==> r[k] != [] && r[k] in pieces
  {
    if pieces == [] then []
    else if pieces[0] == [] then Nonempty(pieces[1..])
    else [pieces[0]] + Nonempty(pieces[1..])
  }
}
