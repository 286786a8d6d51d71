/**
 * Header anchor keys (GitHub style): the text is stripped and lower-cased,
 * every run of whitespace becomes one hyphen, and every character outside
 * `[a-z0-9-]` is dropped.
 */
module Anchor {
  import opened Text

  predicate IsKeyChar(c: char) { IsLowerAlnum(c) || c == '-' }

  predicate IsKey(s: string) { forall j :: 0 <= j < |s| ==> IsKeyChar(s[j]) }

  /** `re.sub(r'\s+', '-', s)` */
  function CollapseSpaces(s: string): (r: string)
    ensures |r| <= |s|
    decreases |s|
  {
    if s == [] then []
    else if IsSpace(s[0]) then ['-'] + CollapseSpaces(LStrip(s))
    else [s[0]] + CollapseSpaces(s[1..])
  }

  /** No whitespace is left once every run of it has become a hyphen. */
  lemma {:induction false} CollapsedHasNoSpace(s: string)
    ensures forall j :: 0 <= j < |CollapseSpaces(s)| ==> !IsSpace(CollapseSpaces(s)[j])
    decreases |s|
  {
    if s != [] {
      if IsSpace(s[0]) {
        CollapsedHasNoSpace(LStrip(s));
      } else {
        CollapsedHasNoSpace(s[1..]);
      }
    }
  }

  /** `re.sub(r'[^a-z0-9\-]', '', s)` */
  function KeepKeyChars(s: string): (r: string)
    ensures |r| <= |s|
  {
    if s == [] then []
    else if IsKeyChar(s[0]) then [s[0]] + KeepKeyChars(s[1..])
    else KeepKeyChars(s[1..])
  }

  /** `_make_anchor_key(text)` */
  function MakeAnchorKey(text: string): (key: string)
    ensures IsKey(key)
  {
    var c := CollapseSpaces(LowerStr(Strip(text)));
    KeptAreKeyChars(c);
    KeepKeyChars(c)
  }

  /** Only key characters survive `KeepKeyChars`. */
  lemma {:induction false} KeptAreKeyChars(s: string)
    ensures IsKey(KeepKeyChars(s))
  {
    if s != [] {
      KeptAreKeyChars(s[1..]);
    }
  }

  lemma {:induction false} StripKey(s: string)
    requires IsKey(s)
    ensures Strip(s) == s
  {
    assert forall j :: 0 <= j < |s| ==> !IsSpace(s[j]);
    assert LStrip(s) == s by {
      if s != [] { assert !IsSpace(s[0]); }
    }
    assert RStrip(s) == s by {
      if s != [] { assert !IsSpace(s[|s| - 1]); }
    }
  }

  lemma {:induction false} LowerKey(s: string)
    requires IsKey(s)
    ensures LowerStr(s) == s
  {
    if s != [] {
      assert IsKeyChar(s[0]);
      LowerKey(s[1..]);
    }
  }

  lemma {:induction false} CollapseKey(s: string)
    requires IsKey(s)
    ensures CollapseSpaces(s) == s
  {
    if s != [] {
      assert IsKeyChar(s[0]) && !IsSpace(s[0]);
      CollapseKey(s[1..]);
    }
  }

  lemma {:induction false} KeepKey(s: string)
    requires IsKey(s)
    ensures KeepKeyChars(s) == s
  {
    if s != [] {
      assert IsKeyChar(s[0]);
      KeepKey(s[1..]);
    }
  }

  /** Normalising a key that is already normalised leaves it unchanged. */
  lemma {:induction false} AnchorKeyIdempotent(text: string)
    ensures MakeAnchorKey(MakeAnchorKey(text)) == MakeAnchorKey(text)
  {
    var k := MakeAnchorKey(text);
    StripKey(k);
    LowerKey(k);
    CollapseKey(k);
    KeepKey(k);
  }

  /** Every key-shaped string is the key of itself. */
  lemma KeyIsOwnKey(k: string)
    requires IsKey(k)
    ensures MakeAnchorKey(k) == k
  {
    StripKey(k);
    LowerKey(k);
    CollapseKey(k);
    KeepKey(k);
  }

  lemma {:induction false} KeepConcat(a: string, b: string)
    ensures KeepKeyChars(a + b) == KeepKeyChars(a) + KeepKeyChars(b)
  {
    if a != [] {
      var ab := a + b;
      assert ab[1..] == a[1..] + b && ab[0] == a[0];
      KeepConcat(a[1..], b);
      if IsKeyChar(a[0]) {
        calc {
          KeepKeyChars(ab);
          [a[0]] + KeepKeyChars(ab[1..]);
          [a[0]] + (KeepKeyChars(a[1..]) + KeepKeyChars(b));
          ([a[0]] + KeepKeyChars(a[1..])) + KeepKeyChars(b);
        }
      }
    } else {
      assert a + b == b;
    }
  }

  lemma CollapseNoSpace(a: string, b: string)
    requires forall j :: 0 <= j < |a| ==> !IsSpace(a[j])
    ensures CollapseSpaces(a + b) == a + CollapseSpaces(b)
  {
    if a != [] {
      assert (a + b)[1..] == a[1..] + b;
      CollapseNoSpace(a[1..], b);
    } else {
      assert a + b == b;
    }
  }

  /**
   * `s` holds the characters of `w`, one by one. The worked example below
   * is stated this way so that the functions under study are applied to a
   * string and not to a literal.
   */
  predicate Spells(s: string, w: string)
  {
    |s| == |w| && forall k :: 0 <= k < |w| ==> s[k] == w[k]
  }

  lemma HelloStrip(t: string)
    requires Spells(t, "Hello, World!")
    ensures Strip(t) == t
  {
    assert t[0] == 'H' && t[12] == '!';
    StripUnchanged(t);
  }

  lemma HelloLower(t: string)
    requires Spells(t, "Hello, World!")
    ensures Spells(LowerStr(t), "hello, world!")
  {
    var l, w := LowerStr(t), "hello, world!";
    forall k | 0 <= k < |w| ensures l[k] == w[k] {
      assert l[k] == Lower(t[k]);
    }
  }

  /** A single space before a word without whitespace becomes a hyphen. */
  lemma CollapseLeadingSpace(b: string)
    requires b != [] && forall j :: 0 <= j < |b| ==> !IsSpace(b[j])
    ensures CollapseSpaces([' '] + b) == ['-'] + b
  {
    var s := [' '] + b;
    assert s[1..] == b;
    LStripOne(s);
    CollapseNoSpace(b, []);
    assert b + [] == b;
    assert CollapseSpaces(s) == ['-'] + CollapseSpaces(LStrip(s));
  }

  /** One space between two words without whitespace becomes one hyphen. */
  lemma CollapseOneSpace(a: string, b: string)
    requires forall j :: 0 <= j < |a| ==> !IsSpace(a[j])
    requires b != [] && forall j :: 0 <= j < |b| ==> !IsSpace(b[j])
    ensures CollapseSpaces(a + ([' '] + b)) == a + (['-'] + b)
  {
    CollapseNoSpace(a, [' '] + b);
    CollapseLeadingSpace(b);
  }

  lemma HelloCollapse(l: string)
    requires Spells(l, "hello, world!")
    ensures Spells(CollapseSpaces(l), "hello,-world!")
  {
    var a, b := l[..6], l[7..];
    assert l[0] == 'h' && l[1] == 'e' && l[2] == 'l' && l[3] == 'l' && l[4] == 'o' && l[5] == ',' && l[6] == ' ';
    assert l[7] == 'w' && l[8] == 'o' && l[9] == 'r' && l[10] == 'l' && l[11] == 'd' && l[12] == '!';
    assert l == a + ([' '] + b);
    CollapseOneSpace(a, b);
    var r := a + (['-'] + b);
    assert r[0] == 'h' && r[1] == 'e' && r[2] == 'l' && r[3] == 'l' && r[4] == 'o' && r[5] == ',' && r[6] == '-';
    assert r[7] == 'w' && r[8] == 'o' && r[9] == 'r' && r[10] == 'l' && r[11] == 'd' && r[12] == '!';
  }

  /** Dropping one character that is not a key character between two keys joins them. */
  lemma KeepAround(h: string, c: char, w: string, d: char)
    requires IsKey(h) && IsKey(w) && !IsKeyChar(c) && !IsKeyChar(d)
    ensures KeepKeyChars(h + [c] + w + [d]) == h + w
  {
    KeepKey(h);
    KeepKey(w);
    KeepDropped(c);
    KeepDropped(d);
    KeepConcat(h + [c] + w, [d]);
    KeepConcat(h + [c], w);
    KeepConcat(h, [c]);
    assert h + [] + w + [] == h + w;
  }

  lemma HelloKeep(s: string)
    requires Spells(s, "hello,-world!")
    ensures KeepKeyChars(s) == "hello-world"
  {
    var h, w := s[..5], s[6..12];
    assert s[0] == 'h' && s[1] == 'e' && s[2] == 'l' && s[3] == 'l' && s[4] == 'o' && s[5] == ',';
    assert s[6] == '-' && s[7] == 'w' && s[8] == 'o' && s[9] == 'r' && s[10] == 'l' && s[11] == 'd' && s[12] == '!';
    assert IsKey(h) && IsKey(w);
    assert s == h + [s[5]] + w + [s[12]];
    KeepAround(h, s[5], w, s[12]);
    var r := h + w;
    assert r[0] == 'h' && r[1] == 'e' && r[2] == 'l' && r[3] == 'l' && r[4] == 'o' && r[5] == '-';
    assert r[6] == 'w' && r[7] == 'o' && r[8] == 'r' && r[9] == 'l' && r[10] == 'd';
  }

  lemma KeepDropped(c: char)
    requires !IsKeyChar(c)
    ensures KeepKeyChars([c]) == []
  {
    assert [c][1..] == [];
  }

  /** The worked example: "Hello, World!" becomes "hello-world". */
  lemma HelloWorldKey(t: string)
    requires Spells(t, "Hello, World!")
    ensures MakeAnchorKey(t) == "hello-world"
  {
    HelloStrip(t);
    HelloLower(t);
    HelloCollapse(LowerStr(t));
    HelloKeep(CollapseSpaces(LowerStr(t)));
  }
}
