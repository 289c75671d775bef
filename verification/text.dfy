/**
 * The handful of Python string operations the tool relies on: prefix and suffix
 * tests, `str.strip()`, `str.split()` (on whitespace), `str.split(sep)`,
 * `str.join`, and the ASCII case tests that the conflict prompt uses.
 */
module Text {

  /** Python's `str.isspace` on one character: the characters `strip()` and `split()` treat as blanks. */
  predicate IsSpace(c: char) {
    || c == ' '
    || ('\t' <= c <= '\r')
    || ('\U{1c}' <= c <= '\U{1f}')
    || c == '\U{85}' || c == '\U{a0}' || c == '\U{1680}'
    || ('\U{2000}' <= c <= '\U{200a}')
    || c == '\U{2028}' || c == '\U{2029}' || c == '\U{202f}' || c == '\U{205f}' || c == '\U{3000}'
  }

  predicate AllSpace(s: string) {
    forall i :: 0 <= i < |s| ==> IsSpace(s[i])
  }

  predicate NoSpace(s: string) {
    forall i :: 0 <= i < |s| ==> !IsSpace(s[i])
  }

  predicate StartsWith(s: string, prefix: string) {
    |prefix| <= |s| && s[..|prefix|] == prefix
  }

  predicate EndsWith(s: string, suffix: string) {
    |suffix| <= |s| && s[|s| - |suffix|..] == suffix
  }

  /** Number of blanks at the front of `s`. */
  function LeadingSpaces(s: string): (n: nat)
    ensures n <= |s|
    ensures AllSpace(s[..n])
    ensures n < |s| ==> !IsSpace(s[n])
  {
    if s != [] && IsSpace(s[0]) then
      var k := LeadingSpaces(s[1..]);
      assert s[..k + 1] == [s[0]] + s[1..][..k];
      k + 1
    else 0
  }

  /** Number of blanks at the back of `s`. */
  function TrailingSpaces(s: string): (n: nat)
    ensures n <= |s|
    ensures AllSpace(s[|s| - n..])
    ensures n < |s| ==> !IsSpace(s[|s| - 1 - n])
  {
    if s != [] && IsSpace(s[|s| - 1]) then
      var t := s[..|s| - 1];
      var k := TrailingSpaces(t);
      TrailingStep(s, k);
      k + 1
    else 0
  }

  /** One more blank at the back extends a blank run that ends at the back. */
  lemma TrailingStep(s: string, k: nat)
    requires s != [] && IsSpace(s[|s| - 1])
    requires k <= |s| - 1 && AllSpace(s[..|s| - 1][|s| - 1 - k..])
    requires k < |s| - 1 ==> !IsSpace(s[..|s| - 1][|s| - 2 - k])
    ensures AllSpace(s[|s| - (k + 1)..])
    ensures k + 1 < |s| ==> !IsSpace(s[|s| - 1 - (k + 1)])
  {
    var t := s[..|s| - 1];
    var u := s[|s| - (k + 1)..];
    forall i | 0 <= i < |u|
      ensures IsSpace(u[i])
    {
      if i < k {
        assert u[i] == t[|t| - k..][i];
      }
    }
    if k + 1 < |s| {
      assert s[|s| - 1 - (k + 1)] == t[|t| - 1 - k];
    }
  }

  /** Python's `s.strip()`: `s` without its leading and trailing blanks. */
  function Strip(s: string): (r: string)
    ensures |r| <= |s|
    ensures r == [] || (!IsSpace(r[0]) && !IsSpace(r[|r| - 1]))
  {
    var t := s[LeadingSpaces(s)..];
    t[..|t| - TrailingSpaces(t)]
  }

  /**
   * Strip removes exactly the blanks around a word: whatever blanks surround a text
   * that neither starts nor ends with a blank, stripping gives that text back.
   */
  lemma StripPadded(pre: string, x: string, post: string)
    requires AllSpace(pre) && AllSpace(post)
    requires x == [] || (!IsSpace(x[0]) && !IsSpace(x[|x| - 1]))
    ensures Strip(pre + x + post) == x
  {
    var s := pre + x + post;
    if x == [] {
      assert AllSpace(s[..|s|]) by {
        assert s[..|s|] == pre + post;
      }
      LeadingSpacesAt(s, |s|);
    } else {
      assert s[..|pre|] == pre && s[|pre|] == x[0];
      LeadingSpacesAt(s, |pre|);
      var t := s[|pre|..];
      assert t == x + post;
      assert t[|t| - |post|..] == post && t[|t| - 1 - |post|] == x[|x| - 1];
      TrailingSpacesAt(t, |post|);
      assert t[..|t| - |post|] == x;
    }
  }

  /** The blank run at the back is the one starting after the last non-blank. */
  lemma TrailingSpacesAt(s: string, m: nat)
    requires m <= |s| && AllSpace(s[|s| - m..]) && (m < |s| ==> !IsSpace(s[|s| - 1 - m]))
    ensures TrailingSpaces(s) == m
  {
  }

  /** Length of the run of non-blank characters at the front of `s`. */
  function WordLength(s: string): (n: nat)
    ensures n <= |s|
    ensures NoSpace(s[..n])
    ensures n < |s| ==> IsSpace(s[n])
  {
    if s != [] && !IsSpace(s[0]) then
      var k := WordLength(s[1..]);
      assert s[..k + 1] == [s[0]] + s[1..][..k];
      k + 1
    else 0
  }

  /** Python's `s.split()` with no separator: the maximal runs of non-blank characters. */
  function Fields(s: string): (r: seq<string>)
    ensures forall i :: 0 <= i < |r| ==> r[i] != [] && NoSpace(r[i])
    decreases |s|
  {
    var t := s[LeadingSpaces(s)..];
    if t == [] then []
    else
      var n := WordLength(t);
      [t[..n]] + Fields(t[n..])
  }

  /** Joins `parts` with `sep` between consecutive parts: Python's `sep.join(parts)`. */
  function JoinOn(parts: seq<string>, sep: string): string {
    if parts == [] then ""
    else if |parts| == 1 then parts[0]
    else parts[0] + sep + JoinOn(parts[1..], sep)
  }

  /** A word followed by a blank-led rest splits into the word and the rest's fields. */
  lemma {:induction false} FieldsCons(w: string, sep: string, rest: string)
    requires w != [] && NoSpace(w)
    requires sep == [] ==> rest == []
    requires sep != [] ==> IsSpace(sep[0])
    ensures Fields(w + sep + rest) == [w] + Fields(sep + rest)
  {
    var s := w + sep + rest;
    assert LeadingSpaces(s) == 0 by { assert s[0] == w[0]; }
    assert s[0..] == s;
    if sep == [] {
      assert s == w;
      assert WordLength(s) == |w|;
      assert s[..|w|] == w;
      assert s[|w|..] == [] == sep + rest;
    } else {
      assert s[|w|] == sep[0];
      assert WordLength(s) == |w|;
      assert s[..|w|] == w;
      assert s[|w|..] == sep + rest;
    }
  }

  /** Splitting on blanks undoes joining blank-free words with single spaces. */
  lemma {:induction false} FieldsOfJoin(ws: seq<string>)
    requires forall i :: 0 <= i < |ws| ==> ws[i] != [] && NoSpace(ws[i])
    ensures Fields(JoinOn(ws, " ")) == ws
  {
    if ws == [] {
      assert Fields("") == [];
    } else if |ws| == 1 {
      FieldsCons(ws[0], "", "");
      assert ws[0] + "" + "" == ws[0];
      assert Fields("") == [];
    } else {
      var rest := JoinOn(ws[1..], " ");
      FieldsCons(ws[0], " ", rest);
      FieldsOfJoin(ws[1..]);
      FieldsSkipsBlanks(" ", rest);
      assert ws == [ws[0]] + ws[1..];
    }
  }

  /**
   * Words each followed by its run of blanks: `ws[0] + gaps[0] + ws[1] + gaps[1] + ...`.
   * With leading blanks in front, every text has this shape (`SpreadFields`).
   */
  function Spread(ws: seq<string>, gaps: seq<string>): string
    requires |gaps| == |ws|
    decreases |ws|
  {
    if ws == [] then "" else ws[0] + gaps[0] + Spread(ws[1..], gaps[1..])
  }

  /** Runs of blanks that can separate words: every run but the last is non-empty. */
  predicate Gaps(gaps: seq<string>) {
    forall i :: 0 <= i < |gaps| ==> AllSpace(gaps[i]) && (i < |gaps| - 1 ==> gaps[i] != [])
  }

  predicate Words(ws: seq<string>) {
    forall i :: 0 <= i < |ws| ==> ws[i] != [] && NoSpace(ws[i])
  }

  /** The blank run at the front is the one ending at the first non-blank. */
  lemma {:induction false} LeadingSpacesAt(s: string, m: nat)
    requires m <= |s| && AllSpace(s[..m]) && (m < |s| ==> !IsSpace(s[m]))
    ensures LeadingSpaces(s) == m
    decreases m
  {
    if m > 0 {
      assert s[..m][0] == s[0];
      assert s[1..][..m - 1] == s[..m][1..];
      LeadingSpacesAt(s[1..], m - 1);
    }
  }

  /** Blanks in front change nothing: `split()` skips them. */
  lemma FieldsSkipsBlanks(pre: string, x: string)
    requires AllSpace(pre)
    ensures Fields(pre + x) == Fields(x)
  {
    var s := pre + x;
    var k := LeadingSpaces(x);
    var m := |pre| + k;
    assert AllSpace(s[..m]) by {
      forall i | 0 <= i < m ensures IsSpace(s[..m][i]) {
        if i >= |pre| {
          assert s[..m][i] == x[..k][i - |pre|];
        }
      }
    }
    if m < |s| {
      assert s[m] == x[k];
    }
    LeadingSpacesAt(s, m);
    assert s[m..] == x[k..];
  }

  /**
   * `split()` finds exactly the words of a text made of words and runs of blanks,
   * whatever the runs are, leading and trailing ones included.
   */
  lemma FieldsOfSpread(pre: string, ws: seq<string>, gaps: seq<string>)
    requires AllSpace(pre) && Words(ws) && |gaps| == |ws| && Gaps(gaps)
    ensures Fields(pre + Spread(ws, gaps)) == ws
  {
    FieldsSkipsBlanks(pre, Spread(ws, gaps));
    FieldsOfBareSpread(ws, gaps);
  }

  lemma {:induction false} FieldsOfBareSpread(ws: seq<string>, gaps: seq<string>)
    requires Words(ws) && |gaps| == |ws| && Gaps(gaps)
    ensures Fields(Spread(ws, gaps)) == ws
    decreases |ws|
  {
    if ws == [] {
      assert Fields("") == [];
    } else {
      var w, g := ws[0], gaps[0];
      assert w != [] && NoSpace(w) && AllSpace(g);
      var rest := Spread(ws[1..], gaps[1..]);
      if |ws| == 1 {
        assert rest == "";
        assert Spread(ws, gaps) == w + g;
        LastWord(w, g);
      } else {
        assert g != [];
        ConsWord(w, g, rest);
        WordsTail(ws);
        GapsTail(gaps);
        FieldsOfBareSpread(ws[1..], gaps[1..]);
        assert ws == [w] + ws[1..];
      }
    }
  }

  /** A last word with blanks after it: `split()` gives just the word. */
  lemma LastWord(w: string, g: string)
    requires w != [] && NoSpace(w) && AllSpace(g)
    ensures Fields(w + g) == [w]
  {
    assert Fields("") == [];
    if g == [] {
      FieldsCons(w, "", "");
      assert w + "" + "" == w + g;
    } else {
      FieldsCons(w, g, "");
      assert w + g + "" == w + g;
      FieldsSkipsBlanks(g, "");
      assert g + "" == g;
    }
  }

  /** A word, a non-empty run of blanks, then the rest: `split()` gives the word, then the rest's fields. */
  lemma ConsWord(w: string, g: string, rest: string)
    requires w != [] && NoSpace(w) && g != [] && AllSpace(g)
    ensures Fields(w + g + rest) == [w] + Fields(rest)
  {
    FieldsCons(w, g, rest);
    FieldsSkipsBlanks(g, rest);
  }

  lemma WordsTail(ws: seq<string>)
    requires Words(ws) && ws != []
    ensures Words(ws[1..])
  {
    forall i | 0 <= i < |ws[1..]|
      ensures ws[1..][i] != [] && NoSpace(ws[1..][i])
    {
      assert ws[1..][i] == ws[i + 1];
    }
  }

  lemma GapsTail(gaps: seq<string>)
    requires Gaps(gaps) && gaps != []
    ensures Gaps(gaps[1..])
  {
    forall i | 0 <= i < |gaps[1..]|
      ensures AllSpace(gaps[1..][i]) && (i < |gaps[1..]| - 1 ==> gaps[1..][i] != [])
    {
      assert gaps[1..][i] == gaps[i + 1];
    }
  }

  lemma GapsCons(p: string, g: seq<string>)
    requires AllSpace(p) && Gaps(g) && (g != [] ==> p != [])
    ensures Gaps([p] + g)
  {
    var gaps := [p] + g;
    forall i | 0 <= i < |gaps|
      ensures AllSpace(gaps[i]) && (i < |gaps| - 1 ==> gaps[i] != [])
    {
      if i > 0 {
        assert gaps[i] == g[i - 1];
      }
    }
  }

  /** A spread of at least one word starts with a non-blank. */
  lemma SpreadStart(ws: seq<string>, gaps: seq<string>)
    requires Words(ws) && |gaps| == |ws| && ws != []
    ensures Spread(ws, gaps) != [] && !IsSpace(Spread(ws, gaps)[0])
  {
    assert Spread(ws, gaps) == ws[0] + gaps[0] + Spread(ws[1..], gaps[1..]);
    assert Spread(ws, gaps)[0] == ws[0][0];
  }

  /** The blanks in front of a spread of some words are a run that can separate words. */
  lemma SpreadGap(u: string, p: string, ws: seq<string>, g: seq<string>)
    requires u == [] || IsSpace(u[0])
    requires AllSpace(p) && Words(ws) && |g| == |ws| && Gaps(g) && u == p + Spread(ws, g)
    ensures Gaps([p] + g)
  {
    if ws != [] {
      SpreadStart(ws, g);
      assert u[0] == (p + Spread(ws, g))[0];
    }
    GapsCons(p, g);
  }

  /** One more word in front of a spread, with the blanks that follow it as its gap. */
  lemma SpreadCons(w: string, p: string, ws: seq<string>, g: seq<string>)
    requires |g| == |ws|
    ensures w + (p + Spread(ws, g)) == Spread([w] + ws, [p] + g)
  {
    assert ([w] + ws)[1..] == ws && ([p] + g)[1..] == g;
    assert w + p + Spread(ws, g) == w + (p + Spread(ws, g));
  }

  /**
   * Every text is its `split()` fields, each followed by the blanks after it, behind
   * the blanks in front: so `Fields` keeps every non-blank character, in order.
   */
  lemma {:induction false} SpreadFields(s: string) returns (pre: string, gaps: seq<string>)
    ensures AllSpace(pre) && |gaps| == |Fields(s)| && Gaps(gaps)
    ensures s == pre + Spread(Fields(s), gaps)
    decreases |s|
  {
    var a := LeadingSpaces(s);
    if a == |s| {
      pre, gaps := s, [];
      assert s[..a] == s;
    } else {
      var w, u := FirstWord(s);
      var p, g := SpreadFields(u);
      SpreadGap(u, p, Fields(u), g);
      SpreadCons(w, p, Fields(u), g);
      pre, gaps := s[..a], [p] + g;
    }
  }

  /** A text with a non-blank in it: blanks, the first word, then a blank-led rest. */
  lemma FirstWord(s: string) returns (w: string, u: string)
    requires LeadingSpaces(s) < |s|
    ensures s == s[..LeadingSpaces(s)] + (w + u) && |u| < |s|
    ensures Fields(s) == [w] + Fields(u)
    ensures u == [] || IsSpace(u[0])
  {
    var a := LeadingSpaces(s);
    var t := s[a..];
    var n := WordLength(t);
    w, u := t[..n], t[n..];
    Rejoin(s, a, n);
    if u != [] {
      assert u[0] == t[n];
    }
  }

  lemma Rejoin(s: string, a: nat, n: nat)
    requires a <= |s| && n <= |s| - a
    ensures s == s[..a] + (s[a..][..n] + s[a..][n..])
  {
    assert s[a..] == s[a..][..n] + s[a..][n..];
    assert s == s[..a] + s[a..];
  }

  /** Index of the first `c` in `s`. */
  function IndexOf(s: string, c: char): (i: nat)
    requires c in s
    ensures i < |s| && s[i] == c && c !in s[..i]
  {
    if s[0] == c then 0
    else
      var k := IndexOf(s[1..], c);
      assert s[..k + 1] == [s[0]] + s[1..][..k];
      k + 1
  }

  /** Python's `s.split(c)` for a one-character separator: never empty, no piece holds `c`. */
  function SplitOn(s: string, c: char): (r: seq<string>)
    ensures |r| >= 1
    ensures forall i :: 0 <= i < |r| ==> c !in r[i]
    decreases |s|
  {
    if c !in s then [s]
    else
      var i := IndexOf(s, c);
      [s[..i]] + SplitOn(s[i + 1..], c)
  }

  /** Joining the pieces of a split with the separator gives the original text back. */
  lemma {:induction false} JoinOfSplit(s: string, c: char)
    ensures JoinOn(SplitOn(s, c), [c]) == s
    decreases |s|
  {
    if c in s {
      var i := IndexOf(s, c);
      var rest := SplitOn(s[i + 1..], c);
      JoinOfSplit(s[i + 1..], c);
      var parts := [s[..i]] + rest;
      assert SplitOn(s, c) == parts;
      JoinCons(s[..i], rest, [c]);
      assert s == s[..i] + [c] + s[i + 1..];
    }
  }

  lemma JoinCons(first: string, rest: seq<string>, sep: string)
    requires rest != []
    ensures JoinOn([first] + rest, sep) == first + sep + JoinOn(rest, sep)
  {
    assert ([first] + rest)[1..] == rest;
  }

  /** Splitting undoes joining pieces that do not contain the separator. */
  lemma {:induction false} SplitOfJoin(parts: seq<string>, c: char)
    requires |parts| >= 1
    requires forall i :: 0 <= i < |parts| ==> c !in parts[i]
    ensures SplitOn(JoinOn(parts, [c]), c) == parts
  {
    if |parts| > 1 {
      var rest := JoinOn(parts[1..], [c]);
      var s := parts[0] + [c] + rest;
      assert c in s by { assert s[|parts[0]|] == c; }
      var i := IndexOf(s, c);
      assert s[..|parts[0]|] == parts[0];
      assert i == |parts[0]|;
      assert s[..i] == parts[0];
      assert s[i + 1..] == rest;
      SplitOfJoin(parts[1..], c);
    }
  }

  /** ASCII lower-casing, as `str.lower()` acts on the keys the prompt can accept. */
  function Lower(c: char): (r: char)
    ensures 'A' <= c <= 'Z' ==> 'a' <= r <= 'z' && r as int == c as int + 32
    ensures !('A' <= c <= 'Z') ==> r == c
  {
    if 'A' <= c <= 'Z' then (c as int - 'A' as int + 'a' as int) as char else c
  }

  predicate IsUpper(c: char) {
    'A' <= c <= 'Z'
  }
}
