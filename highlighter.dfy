/**
 * The highlighter of `syntax_highlighter.py`: the table of loaded syntaxes,
 * the active syntax, the pending re-highlight timer, and the re-tagging
 * pass over the text widget's buffer. Widget tags are a map from tag name
 * to the set of character offsets the tag covers, which is what a Tk tag
 * is; the regular-expression engine is a value handed to the highlighter.
 */
module Highlighter {
  import opened Wrappers
  import opened Text
  import opened Ordered
  import opened SyntaxFile

  /** A match: its start and end offsets, as `m.start()` and `m.end()`. */
  type Span = (nat, nat)

  /**
   * Python's `re` as the highlighter uses it: whether a pattern compiles
   * (with `MULTILINE | DOTALL`), and the matches `finditer` yields on a text.
   */
  datatype Engine = Engine(compiles: string -> bool, finditer: (string, string) -> seq<Span>)

  /** Matches that lie within a text of length `n`, in order and without overlap. */
  predicate InOrder(ms: seq<Span>, n: nat) {
    (forall i :: 0 <= i < |ms| ==> ms[i].0 <= ms[i].1 <= n)
    && forall i :: 0 <= i < |ms| - 1 ==> ms[i].1 <= ms[i + 1].0
  }

  /** What `finditer` guarantees of every result. */
  ghost predicate WellBehaved(e: Engine) {
    forall p, text :: InOrder(e.finditer(p, text), |text|)
  }

  /** The widget's tags: the offsets each tag name covers. */
  type Tags = map<string, set<nat>>

  /** The offsets a tag covers; a tag never created covers none. */
  function Ranges(tags: Tags, name: string): set<nat> {
    if name in tags then tags[name] else {}
  }

  /** `_tagname`: `f"syn_{syntax_name}_{token.lower()}"` */
  function TagName(syntax: string, token: string): string {
    "syn_" + syntax + "_" + LowerStr(token)
  }

  /** Within one syntax, two tokens share a tag exactly when they agree up to case. */
  lemma TagNameShared(syntax: string, t1: string, t2: string)
    ensures TagName(syntax, t1) == TagName(syntax, t2) <==> LowerStr(t1) == LowerStr(t2)
  {
    var p := "syn_" + syntax + "_";
    assert TagName(syntax, t1) == p + LowerStr(t1);
    assert TagName(syntax, t2) == p + LowerStr(t2);
    assert (p + LowerStr(t1))[|p|..] == LowerStr(t1);
    assert (p + LowerStr(t2))[|p|..] == LowerStr(t2);
  }

  /** The first key, in insertion order, that contains `t`. */
  function FirstContaining(keys: seq<string>, t: string): (r: Option<string>)
    ensures r.Some? ==> r.value in keys && HasSubstring(r.value, t)
    ensures r.None? ==> forall k :: k in keys ==> !HasSubstring(k, t)
  {
    if keys == [] then None
    else if HasSubstring(keys[0], t) then Some(keys[0])
    else FirstContaining(keys[1..], t)
  }

  /** The key found is the first one containing `t`: every earlier key lacks it. */
  lemma {:induction false} FirstContainingIsFirst(keys: seq<string>, t: string)
    ensures FirstContaining(keys, t).Some? ==>
              exists i :: 0 <= i < |keys| && keys[i] == FirstContaining(keys, t).value
                && forall j :: 0 <= j < i ==> !HasSubstring(keys[j], t)
  {
    if keys != [] && !HasSubstring(keys[0], t) {
      FirstContainingIsFirst(keys[1..], t);
      if FirstContaining(keys, t).Some? {
        var i :| 0 <= i < |keys[1..]| && keys[1..][i] == FirstContaining(keys[1..], t).value
                 && forall j :: 0 <= j < i ==> !HasSubstring(keys[1..][j], t);
        assert keys[i + 1] == FirstContaining(keys, t).value;
        forall j | 0 <= j < i + 1
          ensures !HasSubstring(keys[j], t)
        {
          if j > 0 { assert keys[j] == keys[1..][j - 1]; }
        }
      }
    } else if keys != [] {
      assert keys[0] == FirstContaining(keys, t).value;
    }
  }

  /**
   * `_choose_tag_key`: the tag key for a rule token among the keys of the
   * syntax's tag dictionary, in insertion order.
   */
  function ChooseTagKey(token: string, keys: seq<string>): Option<string>
  {
    var t := LowerStr(token);
    if t in keys then Some(t)
    else if t + "_name" in keys then Some(t + "_name")
    else if t + "s" in keys then Some(t + "s")
    else if RStripChar(t, 's') in keys then Some(RStripChar(t, 's'))
    else FirstContaining(keys, t)
  }

  /** A string that starts with `t` contains it. */
  lemma PrefixContains(t: string, rest: string)
    ensures HasSubstring(t + rest, t)
  {
    assert OccursAt(t + rest, t, 0);
  }

  /**
   * The chosen key is a key of the dictionary, and either contains the
   * lower-cased token or is that token without its trailing `s`; no key is
   * chosen exactly when no key contains the token and the `s`-less form is
   * not a key. The lower-cased token itself is preferred whenever it is a key.
   */
  lemma ChosenTagKey(token: string, keys: seq<string>)
    ensures ChooseTagKey(token, keys).Some? ==> ChooseTagKey(token, keys).value in keys
    ensures ChooseTagKey(token, keys).Some? ==>
              HasSubstring(ChooseTagKey(token, keys).value, LowerStr(token))
              || ChooseTagKey(token, keys).value == RStripChar(LowerStr(token), 's')
    ensures ChooseTagKey(token, keys).None? <==>
              RStripChar(LowerStr(token), 's') !in keys
              && forall k :: k in keys ==> !HasSubstring(k, LowerStr(token))
    ensures LowerStr(token) in keys ==> ChooseTagKey(token, keys) == Some(LowerStr(token))
  {
    var t := LowerStr(token);
    PrefixContains(t, []);
    assert t + [] == t;
    PrefixContains(t, "_name");
    PrefixContains(t, "s");
  }

  /** The offsets one match covers: `tag_add(tag, '1.0 + <start>c', '1.0 + <end>c')`. */
  function SpanSet(m: Span): set<nat> {
    set k: nat | k < m.1 && Spans(m, k)
  }

  /** Whether the match `m` spans offset `k`. */
  predicate Spans(m: Span, k: nat) { m.0 <= k < m.1 }

  /** The offsets covered by adding the matches one after the other. */
  function Covered(ms: seq<Span>): set<nat> {
    if ms == [] then {} else Covered(ms[..|ms| - 1]) + SpanSet(ms[|ms| - 1])
  }

  /** An offset is covered exactly when some match spans it. */
  lemma {:induction false} CoveredMeaning(ms: seq<Span>, k: nat)
    ensures k in Covered(ms) <==> exists i :: 0 <= i < |ms| && Spans(ms[i], k)
  {
    if ms != [] {
      var ms' := ms[..|ms| - 1];
      CoveredMeaning(ms', k);
      assert forall i :: 0 <= i < |ms'| ==> ms'[i] == ms[i];
    }
  }

  /** Matches within a text of length `n` cover only offsets of that text. */
  lemma CoveredWithin(ms: seq<Span>, n: nat, k: nat)
    requires InOrder(ms, n) && k in Covered(ms)
    ensures k < n
  {
    CoveredMeaning(ms, k);
  }

  /** The inner loop of `highlight`: one `tag_add` per match. */
  function AddSpans(tags: Tags, tag: string, ms: seq<Span>): Tags {
    if ms == [] then tags
    else
      var t := AddSpans(tags, tag, ms[..|ms| - 1]);
      t[tag := Ranges(t, tag) + SpanSet(ms[|ms| - 1])]
  }

  /** Adding matches to a tag extends that tag by what they cover and touches nothing else. */
  lemma {:induction false} AddSpansRanges(tags: Tags, tag: string, ms: seq<Span>, x: string)
    ensures Ranges(AddSpans(tags, tag, ms), x) == if x == tag then Ranges(tags, tag) + Covered(ms) else Ranges(tags, x)
    ensures x in AddSpans(tags, tag, ms) <==> x in tags || (x == tag && ms != [])
  {
    if ms != [] {
      AddSpansRanges(tags, tag, ms[..|ms| - 1], x);
    }
  }

  /** Whether `highlight` uses a rule: its pattern is not empty and compiles. */
  predicate Used(e: Engine, r: Rule) {
    r.pattern != [] && e.compiles(r.pattern)
  }

  /** One rule of the apply loop: the matches of a used rule are added to its tag. */
  function ApplyRule(e: Engine, tags: Tags, syntax: string, r: Rule, buffer: string): Tags {
    if Used(e, r) then AddSpans(tags, TagName(syntax, r.token), e.finditer(r.pattern, buffer)) else tags
  }

  /** The apply loop: the rules in order. */
  function ApplyRules(e: Engine, tags: Tags, syntax: string, rules: seq<Rule>, buffer: string): Tags {
    if rules == [] then tags
    else ApplyRule(e, ApplyRules(e, tags, syntax, rules[..|rules| - 1], buffer), syntax, rules[|rules| - 1], buffer)
  }

  /** The clearing loop: `tag_remove` of every rule's tag over the whole buffer. */
  function ClearTags(tags: Tags, syntax: string, rules: seq<Rule>): Tags {
    if rules == [] then tags
    else ClearTags(tags, syntax, rules[..|rules| - 1])[TagName(syntax, rules[|rules| - 1].token) := {}]
  }

  /** What a pass of `highlight` leaves: every rule's tag cleared, then the rules applied in order. */
  function Retag(e: Engine, tags: Tags, syntax: string, rules: seq<Rule>, buffer: string): Tags {
    ApplyRules(e, ClearTags(tags, syntax, rules), syntax, rules, buffer)
  }

  /** The tags of the rules of a syntax. */
  function RuleTags(syntax: string, rules: seq<Rule>): set<string> {
    set r | r in rules :: TagName(syntax, r.token)
  }

  /**
   * The reference meaning of a pass for one tag: the offsets spanned by a
   * match of some used rule whose tag it is.
   */
  function Marks(e: Engine, syntax: string, rules: seq<Rule>, buffer: string, x: string): set<nat> {
    set i, k | 0 <= i < |rules| && TagName(syntax, rules[i].token) == x && Used(e, rules[i])
                 && k in Covered(e.finditer(rules[i].pattern, buffer)) :: k
  }

  /** Removing the last rule leaves the marks of the others. */
  lemma MarksSnoc(e: Engine, syntax: string, rules: seq<Rule>, buffer: string, x: string)
    requires rules != []
    ensures Marks(e, syntax, rules, buffer, x) == Marks(e, syntax, rules[..|rules| - 1], buffer, x) +
      (var r := rules[|rules| - 1];
       if TagName(syntax, r.token) == x && Used(e, r) then Covered(e.finditer(r.pattern, buffer)) else {})
  {
    var rs := rules[..|rules| - 1];
    assert forall i :: 0 <= i < |rs| ==> rs[i] == rules[i];
  }

  /** The apply loop adds to each tag exactly the marks of the rules, and creates only rule tags. */
  lemma {:induction false} ApplyRulesRanges(e: Engine, tags: Tags, syntax: string, rules: seq<Rule>, buffer: string, x: string)
    ensures Ranges(ApplyRules(e, tags, syntax, rules, buffer), x) == Ranges(tags, x) + Marks(e, syntax, rules, buffer, x)
    ensures x in ApplyRules(e, tags, syntax, rules, buffer) ==> x in tags || x in RuleTags(syntax, rules)
    ensures x in tags ==> x in ApplyRules(e, tags, syntax, rules, buffer)
  {
    if rules != [] {
      var rs, r := rules[..|rules| - 1], rules[|rules| - 1];
      ApplyRulesRanges(e, tags, syntax, rs, buffer, x);
      MarksSnoc(e, syntax, rules, buffer, x);
      if Used(e, r) {
        AddSpansRanges(ApplyRules(e, tags, syntax, rs, buffer), TagName(syntax, r.token), e.finditer(r.pattern, buffer), x);
      }
      assert RuleTags(syntax, rs) <= RuleTags(syntax, rules);
    }
  }

  /** The clearing loop empties every rule tag, creating it if need be, and nothing else. */
  lemma {:induction false} ClearTagsRanges(tags: Tags, syntax: string, rules: seq<Rule>, x: string)
    ensures Ranges(ClearTags(tags, syntax, rules), x) == if x in RuleTags(syntax, rules) then {} else Ranges(tags, x)
    ensures x in ClearTags(tags, syntax, rules) <==> x in tags || x in RuleTags(syntax, rules)
  {
    if rules != [] {
      var rs := rules[..|rules| - 1];
      ClearTagsRanges(tags, syntax, rs, x);
      assert RuleTags(syntax, rules) == RuleTags(syntax, rs) + {TagName(syntax, rules[|rules| - 1].token)};
    }
  }

  /** Only a rule's own tag can hold its marks. */
  lemma MarksOfOtherTags(e: Engine, syntax: string, rules: seq<Rule>, buffer: string, x: string)
    requires x !in RuleTags(syntax, rules)
    ensures Marks(e, syntax, rules, buffer, x) == {}
  {
    forall i | 0 <= i < |rules|
      ensures TagName(syntax, rules[i].token) != x
    {
      assert rules[i] in rules;
    }
  }

  /**
   * After a pass, a rule tag covers exactly the matches of the used rules
   * with that tag, whatever it covered before; every other tag is as it was;
   * the rule tags all exist.
   */
  lemma RetagRanges(e: Engine, tags: Tags, syntax: string, rules: seq<Rule>, buffer: string, x: string)
    ensures Ranges(Retag(e, tags, syntax, rules, buffer), x) ==
              if x in RuleTags(syntax, rules) then Marks(e, syntax, rules, buffer, x) else Ranges(tags, x)
    ensures x in Retag(e, tags, syntax, rules, buffer) <==> x in tags || x in RuleTags(syntax, rules)
  {
    ClearTagsRanges(tags, syntax, rules, x);
    ApplyRulesRanges(e, ClearTags(tags, syntax, rules), syntax, rules, buffer, x);
    if x !in RuleTags(syntax, rules) {
      MarksOfOtherTags(e, syntax, rules, buffer, x);
    }
  }

  /** A second pass over an unchanged buffer leaves the tags as the first pass left them. */
  lemma RetagIdempotent(e: Engine, tags: Tags, syntax: string, rules: seq<Rule>, buffer: string)
    ensures Retag(e, Retag(e, tags, syntax, rules, buffer), syntax, rules, buffer) == Retag(e, tags, syntax, rules, buffer)
  {
    var once := Retag(e, tags, syntax, rules, buffer);
    var twice := Retag(e, once, syntax, rules, buffer);
    forall x
      ensures (x in twice <==> x in once) && (x in once ==> twice[x] == once[x])
    {
      RetagRanges(e, tags, syntax, rules, buffer, x);
      RetagRanges(e, once, syntax, rules, buffer, x);
    }
  }

  /** With a well-behaved engine a pass tags only offsets of the buffer. */
  lemma MarksWithin(e: Engine, syntax: string, rules: seq<Rule>, buffer: string, x: string, k: nat)
    requires WellBehaved(e) && k in Marks(e, syntax, rules, buffer, x)
    ensures k < |buffer|
  {
    var i :| 0 <= i < |rules| && TagName(syntax, rules[i].token) == x && Used(e, rules[i])
              && k in Covered(e.finditer(rules[i].pattern, buffer));
    CoveredWithin(e.finditer(rules[i].pattern, buffer), |buffer|, k);
  }

  /** The lower-cased extension `get_syntax_for_file` looks for: `splitext(p)[1].lstrip('.').lower()`. */
  function ExtOf(path: string): string {
    LowerStr(LStripChar(Ext(path), '.'))
  }

  /** The first syntax, in table order, whose extensions hold `ext`; none for an empty `ext`. */
  function SyntaxForExt(table: Dict<string, Syntax>, ext: string): Option<string> {
    if table == [] then None
    else if ext != [] && ext in table[0].1.exts then Some(table[0].0)
    else SyntaxForExt(table[1..], ext)
  }

  /**
   * A syntax is found exactly when the extension is not empty and some
   * syntax lists it, and then it is the first such one.
   */
  lemma {:induction false} SyntaxForExtFirst(table: Dict<string, Syntax>, ext: string)
    ensures SyntaxForExt(table, ext).Some? <==> ext != [] && exists i :: 0 <= i < |table| && ext in table[i].1.exts
    ensures SyntaxForExt(table, ext).Some? ==>
              exists i :: 0 <= i < |table| && table[i].0 == SyntaxForExt(table, ext).value
                && ext in table[i].1.exts && forall j :: 0 <= j < i ==> ext !in table[j].1.exts
  {
    if table != [] && !(ext != [] && ext in table[0].1.exts) {
      var rest := table[1..];
      SyntaxForExtFirst(rest, ext);
      assert forall i :: 0 <= i < |rest| ==> rest[i] == table[i + 1];
      if SyntaxForExt(rest, ext).Some? {
        var i :| 0 <= i < |rest| && rest[i].0 == SyntaxForExt(rest, ext).value
                 && ext in rest[i].1.exts && forall j :: 0 <= j < i ==> ext !in rest[j].1.exts;
        assert table[i + 1].0 == SyntaxForExt(table, ext).value;
      }
    }
  }

  /** The syntax `get_syntax_for_file` picks: none for an empty path. */
  function SyntaxFor(table: Dict<string, Syntax>, path: string): Option<string> {
    if path == [] then None else SyntaxForExt(table, ExtOf(path))
  }

  class SyntaxHighlighter {
    /** `_syntaxes`, in insertion order. */
    var syntaxes: Dict<string, Syntax>
    /** `_current` */
    var current: Option<string>
    /** `_after_id`: the id of the pending timer, if any. */
    var pending: Option<nat>
    /** The id the timer hands out next. */
    var nextId: nat
    /** The ids passed to `after_cancel`. */
    var cancelled: set<nat>
    /** The widget's tags. */
    var tags: Tags
    /** The regular-expression engine. */
    const engine: Engine

    ghost predicate Valid()
      reads this
    {
      Consistent(syntaxes)
      && (current.Some? ==> current.value in Keys(syntaxes))
      && (pending.Some? ==> pending.value < nextId && pending.value !in cancelled)
      && (forall id :: id in cancelled ==> id < nextId)
      && WellBehaved(engine)
    }

    /**
     * `__init__` and `_load_all_syntaxes`: each directory entry, in the
     * order given, is read and compiled if it is a readable `.ini` file, and
     * stored under its name.
     */
    constructor (files: seq<SourceFile>, unraw: string -> string, engine: Engine)
      requires WellBehaved(engine)
      ensures Valid()
      ensures syntaxes == LoadAll(files, unraw)
      ensures current.None? && pending.None? && tags == map[]
    {
      this.engine := engine;
      current := None;
      pending := None;
      nextId := 0;
      cancelled := {};
      tags := map[];
      var table: Dict<string, Syntax> := [];
      var i := 0;
      while i < |files|
        invariant i <= |files|
        invariant table == LoadAll(files[..i], unraw)
      {
        var f := files[i];
        assert files[..i + 1][..i] == files[..i];
        if IsIni(f.name) && f.lines.Some? {
          var d := ReadSyntaxFile(f.lines.value, unraw);
          var s := Compile(f.name, d);
          table := Put(table, s.name, s);
        }
        i := i + 1;
      }
      assert files[..i] == files;
      syntaxes := table;
      LoadAllConsistent(files, unraw);
    }

    /** `get_syntax_for_file` */
    method GetSyntaxForFile(path: string) returns (r: Option<string>)
      ensures r == SyntaxFor(syntaxes, path)
    {
      if path == [] {
        return None;
      }
      var ext := ExtOf(path);
      var i := 0;
      while i < |syntaxes|
        invariant i <= |syntaxes|
        invariant SyntaxForExt(syntaxes[i..], ext) == SyntaxForExt(syntaxes, ext)
      {
        assert syntaxes[i..][1..] == syntaxes[i + 1..];
        if ext != [] && ext in syntaxes[i].1.exts {
          return Some(syntaxes[i].0);
        }
        i := i + 1;
      }
      return None;
    }

    /**
     * `set_syntax`: an absent or unknown name clears the active syntax,
     * the active name leaves it as it is, and a known name selects it.
     */
    method SetSyntax(name: Option<string>)
      requires Valid()
      modifies this`current
      ensures Valid()
      ensures current == if name.None? || name.value !in Keys(syntaxes) then None else name
    {
      if name.None? || name.value !in Keys(syntaxes) {
        current := None;
        return;
      }
      if current == name {
        return;
      }
      current := name;
    }

    /** `set_syntax_for_file`: a file whose extension no syntax lists leaves the active syntax unchanged. */
    method SetSyntaxForFile(path: string) returns (r: Option<string>)
      requires Valid()
      modifies this`current
      ensures Valid()
      ensures r == SyntaxFor(syntaxes, path)
      ensures current == if r.Some? then r else old(current)
    {
      r := GetSyntaxForFile(path);
      if r.Some? && r.value != [] {
        SyntaxForExtFirst(syntaxes, ExtOf(path));
        SetSyntax(r);
      } else if r.Some? {
        SyntaxForExtFirst(syntaxes, ExtOf(path));
        assert false;
      }
    }

    /**
     * `schedule_highlight`: the pending timer, if any, is cancelled and a
     * fresh one becomes the only pending one. The delay only matters to the
     * timer and is not modelled.
     */
    method ScheduleHighlight()
      requires Valid()
      modifies this`pending, this`nextId, this`cancelled
      ensures Valid()
      ensures pending == Some(old(nextId)) && nextId == old(nextId) + 1
      ensures cancelled == if old(pending).Some? then old(cancelled) + {old(pending).value} else old(cancelled)
    {
      if pending.Some? {
        cancelled := cancelled + {pending.value};
      }
      pending := Some(nextId);
      nextId := nextId + 1;
    }

    /**
     * `highlight` on the widget's current text `buffer`: with an active
     * syntax, every rule's tag is cleared and the rules are then applied
     * in order; the pending timer is forgotten either way.
     */
    method Highlight(buffer: string)
      requires Valid()
      modifies this`pending, this`tags
      ensures Valid()
      ensures pending.None?
      ensures current.None? ==> tags == old(tags)
      ensures current.Some? ==> var syn := Get(syntaxes, current.value);
        syn.Some? && tags == Retag(engine, old(tags), current.value, syn.value.regexes, buffer)
    {
      pending := None;
      if current.None? || current.value == [] {
        if current.Some? {
          assert false;
        }
        return;
      }
      var name := current.value;
      var syn := Get(syntaxes, name);
      if syn.None? {
        return;
      }
      var rules := syn.value.regexes;
      ClearRuleTags(name, rules);
      ApplyRuleTags(name, rules, buffer);
    }

    /** The clearing loop of `highlight`. */
    method ClearRuleTags(name: string, rules: seq<Rule>)
      modifies this`tags
      ensures tags == ClearTags(old(tags), name, rules)
    {
      var i := 0;
      while i < |rules|
        invariant i <= |rules|
        invariant tags == ClearTags(old(tags), name, rules[..i])
      {
        assert rules[..i + 1][..i] == rules[..i];
        tags := tags[TagName(name, rules[i].token) := {}];
        i := i + 1;
      }
      assert rules[..i] == rules;
    }

    /** The apply loop of `highlight`: empty and invalid patterns are skipped. */
    method ApplyRuleTags(name: string, rules: seq<Rule>, buffer: string)
      modifies this`tags
      ensures tags == ApplyRules(engine, old(tags), name, rules, buffer)
    {
      var i := 0;
      while i < |rules|
        invariant i <= |rules|
        invariant tags == ApplyRules(engine, old(tags), name, rules[..i], buffer)
      {
        assert rules[..i + 1][..i] == rules[..i];
        var r := rules[i];
        if r.pattern != [] && engine.compiles(r.pattern) {
          AddMatches(TagName(name, r.token), engine.finditer(r.pattern, buffer));
        }
        i := i + 1;
      }
      assert rules[..i] == rules;
    }

    /** The match loop of `highlight`: one `tag_add` per match. */
    method AddMatches(tag: string, ms: seq<Span>)
      modifies this`tags
      ensures tags == AddSpans(old(tags), tag, ms)
    {
      var j := 0;
      while j < |ms|
        invariant j <= |ms|
        invariant tags == AddSpans(old(tags), tag, ms[..j])
      {
        assert ms[..j + 1][..j] == ms[..j];
        tags := tags[tag := Ranges(tags, tag) + SpanSet(ms[j])];
        j := j + 1;
      }
      assert ms[..j] == ms;
    }
  }
}
