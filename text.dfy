/**
 * The string helpers the country key is built from, restricted to ASCII:
 * `mb_strtolower` / `mb_strtoupper`, PHP's `trim` with its default character
 * list, PHP's `empty` on an optional string, and `Str::slug`.
 */
module Text {
  import opened Wrappers

  predicate IsUpperLetter(c: char) { 'A' <= c <= 'Z' }
  predicate IsLowerLetter(c: char) { 'a' <= c <= 'z' }
  predicate IsDigit(c: char) { '0' <= c <= '9' }
  predicate IsAlnum(c: char) { IsUpperLetter(c) || IsLowerLetter(c) || IsDigit(c) }

  /** Whitespace as the `\s` class of a PCRE pattern sees it: space, tab, LF, VT, FF, CR. */
  predicate IsSpace(c: char) {
    c == ' ' || c == '\t' || c == '\n' || c == '\r' || c as int == 11 || c as int == 12
  }

  /** The characters PHP's `trim` strips by default: space, tab, LF, CR, NUL and VT. */
  predicate IsTrimmable(c: char) {
    c == ' ' || c == '\t' || c == '\n' || c == '\r' || c as int == 0 || c as int == 11
  }

  function LowerChar(c: char): char {
    if IsUpperLetter(c) then (c as int + 32) as char else c
  }

  function UpperChar(c: char): char {
    if IsLowerLetter(c) then (c as int - 32) as char else c
  }

  function Lower(s: string): string {
    seq(|s|, i requires 0 <= i < |s| => LowerChar(s[i]))
  }

  function Upper(s: string): string {
    seq(|s|, i requires 0 <= i < |s| => UpperChar(s[i]))
  }

  /** PHP's `empty` on a string that may be absent: null, "" and "0" are all empty. */
  predicate IsBlank(s: Option<string>) {
    s.None? || s.value == "" || s.value == "0"
  }

  function TrimLeft(s: string): (r: string)
    ensures |r| <= |s| && r == s[|s| - |r|..]
    ensures r == [] || !IsTrimmable(r[0])
  {
    if s != [] && IsTrimmable(s[0]) then TrimLeft(s[1..]) else s
  }

  function TrimRight(s: string): (r: string)
    ensures |r| <= |s| && r == s[..|r|]
    ensures r == [] || !IsTrimmable(r[|r| - 1])
  {
    if s != [] && IsTrimmable(s[|s| - 1]) then TrimRight(s[..|s| - 1]) else s
  }

  /** `r` is `s` with `i` trimmable characters removed at the front and only trimmable ones at the back. */
  predicate TrimmedAt(s: string, r: string, i: int) {
    && 0 <= i && i + |r| <= |s| && r == s[i..i + |r|]
    && (forall k :: 0 <= k < i ==> IsTrimmable(s[k]))
    && (forall k :: i + |r| <= k < |s| ==> IsTrimmable(s[k]))
  }

  lemma {:induction false} TrimLeftStrips(s: string)
    ensures forall k :: 0 <= k < |s| - |TrimLeft(s)| ==> IsTrimmable(s[k])
    decreases |s|
  {
    if s != [] && IsTrimmable(s[0]) {
      TrimLeftStrips(s[1..]);
    }
  }

  lemma {:induction false} TrimRightStrips(s: string)
    ensures forall k :: |TrimRight(s)| <= k < |s| ==> IsTrimmable(s[k])
    decreases |s|
  {
    if s != [] && IsTrimmable(s[|s| - 1]) {
      TrimRightStrips(s[..|s| - 1]);
    }
  }

  /**
   * PHP's `trim`: the input with the trimmable characters at both ends removed and everything
   * between them kept; the result neither starts nor ends with a trimmable character.
   */
  function Trim(s: string): (r: string)
    ensures |r| <= |s|
    ensures exists i :: TrimmedAt(s, r, i)
    ensures r == [] || (!IsTrimmable(r[0]) && !IsTrimmable(r[|r| - 1]))
  {
    TrimBothEnds(s);
    TrimRight(TrimLeft(s))
  }

  lemma TrimBothEnds(s: string)
    ensures TrimmedAt(s, TrimRight(TrimLeft(s)), |s| - |TrimLeft(s)|)
  {
    var l := TrimLeft(s);
    var i := |s| - |l|;
    var r := TrimRight(l);
    TrimLeftStrips(s);
    TrimRightStrips(l);
    assert l == s[i..];
    assert r == l[..|r|];
    forall k | i + |r| <= k < |s| ensures IsTrimmable(s[k]) {
      assert s[k] == l[k - i];
    }
  }

  // ---------------------------------------------------------------------------
  // Str::slug, ASCII only
  // ---------------------------------------------------------------------------

  predicate IsSlugChar(c: char) { IsLowerLetter(c) || IsDigit(c) || c == '-' }

  /** The shape of every slug: lower-case letters, digits and single hyphens between them. */
  predicate IsSlug(r: string) {
    && (forall i :: 0 <= i < |r| ==> IsSlugChar(r[i]))
    && (forall i :: 0 <= i < |r| && r[i] == '-' ==> i + 1 < |r| && r[i + 1] != '-')
    && (r == [] || r[0] != '-')
  }

  /** A separator: one of the characters a run of which the slug turns into a single '-'. */
  predicate IsSeparator(c: char) { c == '-' || IsSpace(c) }

  /**
   * Scans `s` left to right. `gap` records a separator seen since the last letter or digit,
   * `started` that a letter or digit has already been emitted. Letters and digits are kept
   * (lower-cased), a gap between two of them becomes one '-', anything else is dropped.
   */
  function SlugScan(s: string, gap: bool, started: bool): (r: string)
    ensures forall i :: 0 <= i < |r| ==> IsSlugChar(r[i])
    ensures forall i :: 0 <= i < |r| && r[i] == '-' ==> i + 1 < |r| && r[i + 1] != '-'
    ensures r != [] && r[0] == '-' ==> started
    decreases |s|
  {
    if s == [] then []
    else if IsAlnum(s[0]) then
      (if started && gap then "-" else "") + [LowerChar(s[0])] + SlugScan(s[1..], false, true)
    else
      SlugScan(s[1..], gap || IsSeparator(s[0]), started)
  }

  /** A word: letters and digits only. */
  predicate IsWord(w: string) {
    w != [] && forall i :: 0 <= i < |w| ==> IsAlnum(w[i])
  }

  /** `Str::slug($s)` for ASCII input. */
  function Slug(s: string): (r: string)
    ensures IsSlug(r)
  {
    SlugScan(s, false, false)
  }

  // ---------------------------------------------------------------------------
  // Properties of the slug
  // ---------------------------------------------------------------------------

  /** A string already in slug shape is scanned (after its first letter) back into itself. */
  lemma {:induction false} SlugScanKeeps(t: string)
    requires forall i :: 0 <= i < |t| ==> IsSlugChar(t[i])
    requires forall i :: 0 <= i < |t| && t[i] == '-' ==> i + 1 < |t| && t[i + 1] != '-'
    ensures SlugScan(t, false, true) == t
    decreases |t|
  {
    if t == [] {
    } else if t[0] == '-' {
      assert IsAlnum(t[1]) && LowerChar(t[1]) == t[1];
      SlugScanKeeps(t[2..]);
      calc {
        SlugScan(t, false, true);
        SlugScan(t[1..], true, true);
        { assert t[1..][0] == t[1] && t[1..][1..] == t[2..]; }
        "-" + [t[1]] + SlugScan(t[2..], false, true);
        "-" + [t[1]] + t[2..];
        t;
      }
    } else {
      assert IsAlnum(t[0]) && LowerChar(t[0]) == t[0];
      SlugScanKeeps(t[1..]);
      assert t == [t[0]] + t[1..];
    }
  }

  /** Slugging is idempotent: a normalized key is its own normalization. */
  lemma SlugIdempotent(s: string)
    ensures Slug(Slug(s)) == Slug(s)
  {
    var r := Slug(s);
    if r != [] {
      assert IsAlnum(r[0]) && LowerChar(r[0]) == r[0];
      SlugScanKeeps(r[1..]);
      assert r == [r[0]] + r[1..];
    }
  }

  lemma {:induction false} SlugScanIgnoresCase(s: string, gap: bool, started: bool)
    ensures SlugScan(Lower(s), gap, started) == SlugScan(s, gap, started)
    decreases |s|
  {
    if s != [] {
      assert Lower(s)[1..] == Lower(s[1..]);
      SlugScanIgnoresCase(s[1..], false, true);
      SlugScanIgnoresCase(s[1..], gap || IsSeparator(s[0]), started);
    }
  }

  /** Lower-casing before slugging changes nothing: the slug ignores letter case. */
  lemma SlugIgnoresCase(s: string)
    ensures Slug(Lower(s)) == Slug(s)
  {
    SlugScanIgnoresCase(s, false, false);
  }

  /** Before the first letter or digit, whether a separator was seen does not matter. */
  lemma {:induction false} SlugScanGapIrrelevant(s: string, g1: bool, g2: bool)
    ensures SlugScan(s, g1, false) == SlugScan(s, g2, false)
    decreases |s|
  {
    if s != [] && !IsAlnum(s[0]) {
      SlugScanGapIrrelevant(s[1..], g1 || IsSeparator(s[0]), g2 || IsSeparator(s[0]));
    }
  }

  lemma {:induction false} SlugScanTrimLeft(s: string, gap: bool)
    ensures SlugScan(TrimLeft(s), gap, false) == SlugScan(s, gap, false)
    decreases |s|
  {
    if s != [] && IsTrimmable(s[0]) {
      SlugScanTrimLeft(s[1..], gap);
      SlugScanGapIrrelevant(s[1..], gap, gap || IsSeparator(s[0]));
    }
  }

  /** Appending a character that is neither a letter nor a digit does not change the slug. */
  lemma {:induction false} SlugScanDropLast(s: string, c: char, gap: bool, started: bool)
    requires !IsAlnum(c)
    ensures SlugScan(s + [c], gap, started) == SlugScan(s, gap, started)
    decreases |s|
  {
    if s == [] {
      assert SlugScan([c], gap, started) == SlugScan([], gap || IsSeparator(c), started);
    } else {
      assert (s + [c])[0] == s[0] && (s + [c])[1..] == s[1..] + [c];
      SlugScanDropLast(s[1..], c, false, true);
      SlugScanDropLast(s[1..], c, gap || IsSeparator(s[0]), started);
    }
  }

  lemma {:induction false} SlugScanTrimRight(s: string, gap: bool, started: bool)
    ensures SlugScan(TrimRight(s), gap, started) == SlugScan(s, gap, started)
    decreases |s|
  {
    if s != [] && IsTrimmable(s[|s| - 1]) {
      var p := s[..|s| - 1];
      assert s == p + [s[|s| - 1]];
      SlugScanDropLast(p, s[|s| - 1], gap, started);
      SlugScanTrimRight(p, gap, started);
    }
  }

  /** Trimming before slugging changes nothing: surrounding whitespace is not part of the key. */
  lemma SlugIgnoresTrim(s: string)
    ensures Slug(Trim(s)) == Slug(s)
  {
    SlugScanTrimRight(TrimLeft(s), false, false);
    SlugScanTrimLeft(s, false);
  }

  /** A word is kept lower-cased, preceded by one '-' when a gap separates it from an earlier word. */
  lemma {:induction false} SlugScanWord(w: string, rest: string, gap: bool, started: bool)
    requires IsWord(w)
    ensures SlugScan(w + rest, gap, started)
            == (if started && gap then "-" else "") + Lower(w) + SlugScan(rest, false, true)
    decreases |w|
  {
    assert (w + rest)[1..] == w[1..] + rest;
    if |w| == 1 {
      assert w[1..] + rest == rest;
      assert Lower(w) == [LowerChar(w[0])];
    } else {
      SlugScanWord(w[1..], rest, false, true);
      assert Lower(w) == [LowerChar(w[0])] + Lower(w[1..]);
    }
  }

  /** A character that is neither a letter nor a digit is dropped, opening a gap when it is a separator. */
  lemma SlugScanDrop(c: char, rest: string, gap: bool, started: bool)
    requires !IsAlnum(c)
    ensures SlugScan([c] + rest, gap, started) == SlugScan(rest, gap || IsSeparator(c), started)
  {
    assert ([c] + rest)[1..] == rest;
  }

  /** Words written with one space between each two. */
  function Spaced(ws: seq<string>): string
    decreases |ws|
  {
    if |ws| <= 1 then (if ws == [] then "" else ws[0]) else ws[0] + " " + Spaced(ws[1..])
  }

  /** The same words lower-cased, with one hyphen between each two. */
  function Hyphenated(ws: seq<string>): string
    decreases |ws|
  {
    if |ws| <= 1 then (if ws == [] then "" else Lower(ws[0])) else Lower(ws[0]) + "-" + Hyphenated(ws[1..])
  }

  lemma {:induction false} SlugScanSpaced(ws: seq<string>, gap: bool, started: bool)
    requires ws != [] && forall i :: 0 <= i < |ws| ==> IsWord(ws[i])
    ensures SlugScan(Spaced(ws), gap, started) == (if started && gap then "-" else "") + Hyphenated(ws)
    decreases |ws|
  {
    if |ws| == 1 {
      SlugScanWord(ws[0], "", gap, started);
      assert ws[0] + "" == ws[0];
    } else {
      var rest := Spaced(ws[1..]);
      assert Spaced(ws) == ws[0] + ([' '] + rest);
      SlugScanWord(ws[0], [' '] + rest, gap, started);
      SlugScanDrop(' ', rest, false, true);
      SlugScanSpaced(ws[1..], true, true);
    }
  }

  /** A name made of words separated by single spaces becomes its lower-cased words joined by hyphens. */
  lemma SlugOfSpacedWords(ws: seq<string>)
    requires ws != [] && forall i :: 0 <= i < |ws| ==> IsWord(ws[i])
    ensures Slug(Spaced(ws)) == Hyphenated(ws)
  {
    SlugScanSpaced(ws, false, false);
  }

  lemma {:induction false} SlugScanDropsPunctuation(a: string, c: char, b: string, gap: bool, started: bool)
    requires !IsAlnum(c) && !IsSeparator(c)
    ensures SlugScan(a + [c] + b, gap, started) == SlugScan(a + b, gap, started)
    decreases |a|
  {
    if a == [] {
      assert a + [c] + b == [c] + b && a + b == b;
      SlugScanDrop(c, b, gap, started);
    } else {
      assert (a + [c] + b)[1..] == a[1..] + [c] + b;
      assert (a + b)[1..] == a[1..] + b;
      if IsAlnum(a[0]) {
        SlugScanDropsPunctuation(a[1..], c, b, false, true);
      } else {
        SlugScanDropsPunctuation(a[1..], c, b, gap || IsSeparator(a[0]), started);
      }
    }
  }

  /** A character that is neither a letter, a digit, a hyphen nor whitespace leaves no trace in the slug. */
  lemma SlugDropsPunctuation(a: string, c: char, b: string)
    requires !IsAlnum(c) && !IsSeparator(c)
    ensures Slug(a + [c] + b) == Slug(a + b)
  {
    SlugScanDropsPunctuation(a, c, b, false, false);
  }
}
