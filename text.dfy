/**
 * String helpers shared by the page script and the scraper: white space,
 * lower-casing, trimming, joining and substring search.
 */
module Text {

  /** JavaScript's `\s`/`trim()` and Python's `str.strip()` use different white-space sets. */
  datatype SpaceSet = JsSpace | PySpace

  /**
   * White space common to both languages: tab, line feed, vertical tab, form
   * feed, carriage return, space, no-break space, U+1680, U+2000 to U+200A,
   * the line and paragraph separators, U+202F, U+205F and U+3000.
   */
  predicate IsCommonSpace(c: char)
  {
    || ('\t' <= c <= '\r') || c == ' ' || c == '\U{A0}' || c == '\U{1680}'
    || ('\U{2000}' <= c <= '\U{200A}') || c == '\U{2028}' || c == '\U{2029}'
    || c == '\U{202F}' || c == '\U{205F}' || c == '\U{3000}'
  }

  /**
   * The byte-order mark counts as white space in JavaScript only; the
   * information separators U+001C to U+001F and NEL (U+0085) in Python only.
   */
  predicate IsSpace(ws: SpaceSet, c: char)
  {
    || IsCommonSpace(c)
    || (ws == JsSpace && c == '\U{FEFF}')
    || (ws == PySpace && (('\U{1C}' <= c <= '\U{1F}') || c == '\U{85}'))
  }

  predicate AllSpace(ws: SpaceSet, s: string)
  {
    forall i :: 0 <= i < |s| ==> IsSpace(ws, s[i])
  }

  predicate IsUpper(c: char)
  {
    ('A' <= c <= 'Z') || ('\U{C0}' <= c <= '\U{DE}' && c != '\U{D7}')
  }

  /** Lower-casing, abstracted to ASCII and Latin-1 letters. */
  function Lower(c: char): (r: char)
    ensures IsUpper(c) ==> r as int == c as int + 32
    ensures !IsUpper(c) ==> r == c
    ensures !IsUpper(r)
  {
    if IsUpper(c) then (c as int + 32) as char else c
  }

  function LowerStr(s: string): (r: string)
    ensures |r| == |s|
    ensures forall i :: 0 <= i < |s| ==> r[i] == Lower(s[i])
  {
    seq(|s|, i requires 0 <= i < |s| => Lower(s[i]))
  }

  lemma LowerStrIdempotent(s: string)
    ensures LowerStr(LowerStr(s)) == LowerStr(s)
  {
  }

  lemma LowerStrAppend(a: string, b: string)
    ensures LowerStr(a + b) == LowerStr(a) + LowerStr(b)
  {
  }

  /** Lower-casing leaves a string made only of white space unchanged. */
  lemma LowerStrKeepsSpace(ws: SpaceSet, s: string)
    requires AllSpace(ws, s)
    ensures LowerStr(s) == s
  {
  }

  /** Drops leading white space. */
  function TrimStart(ws: SpaceSet, s: string): string
  {
    if s != [] && IsSpace(ws, s[0]) then TrimStart(ws, s[1..]) else s
  }

  lemma {:induction false} TrimStartSpec(ws: SpaceSet, s: string)
    ensures var r := TrimStart(ws, s);
      && |r| <= |s| && r == s[|s| - |r|..]
      && AllSpace(ws, s[..|s| - |r|])
      && (r == [] || !IsSpace(ws, r[0]))
  {
    if s != [] && IsSpace(ws, s[0]) {
      TrimStartSpec(ws, s[1..]);
      var r := TrimStart(ws, s);
      assert s[..|s| - |r|] == [s[0]] + s[1..][..|s| - 1 - |r|];
    }
  }

  /** Drops trailing white space. */
  function TrimEnd(ws: SpaceSet, s: string): string
  {
    if s != [] && IsSpace(ws, s[|s| - 1]) then TrimEnd(ws, s[..|s| - 1]) else s
  }

  lemma {:induction false} TrimEndSpec(ws: SpaceSet, s: string)
    ensures var r := TrimEnd(ws, s);
      && |r| <= |s| && r == s[..|r|]
      && AllSpace(ws, s[|r|..])
      && (r == [] || !IsSpace(ws, r[|r| - 1]))
  {
    if s != [] && IsSpace(ws, s[|s| - 1]) {
      TrimEndSpec(ws, s[..|s| - 1]);
      var r := TrimEnd(ws, s);
      assert s[|r|..] == s[..|s| - 1][|r|..] + [s[|s| - 1]];
    }
  }

  /** JavaScript `String.prototype.trim` / Python `str.strip()` without arguments. */
  function Trim(ws: SpaceSet, s: string): (r: string)
    ensures r == [] || (!IsSpace(ws, r[0]) && !IsSpace(ws, r[|r| - 1]))
    ensures r == [] <==> AllSpace(ws, s)
    ensures forall c :: c in r ==> c in s
  {
    var t := TrimStart(ws, s);
    var r := TrimEnd(ws, t);
    TrimStartSpec(ws, s);
    TrimEndSpec(ws, t);
    assert s == s[..|s| - |t|] + t;
    assert t == r + t[|r|..];
    r
  }

  lemma TrimStartPadded(ws: SpaceSet, w: string, s: string)
    requires AllSpace(ws, w)
    ensures TrimStart(ws, w + s) == TrimStart(ws, s)
  {
    if w != [] {
      var ws1 := w + s;
      assert ws1[0] == w[0] && IsSpace(ws, w[0]);
      assert ws1[1..] == w[1..] + s;
      var rest := w[1..];
      assert AllSpace(ws, rest) by {
        forall i | 0 <= i < |rest| ensures IsSpace(ws, rest[i]) { assert rest[i] == w[i + 1]; }
      }
      TrimStartPadded(ws, w[1..], s);
      assert TrimStart(ws, ws1) == TrimStart(ws, ws1[1..]);
    } else {
      assert w + s == s;
    }
  }

  lemma TrimEndPadded(ws: SpaceSet, s: string, w: string)
    requires AllSpace(ws, w)
    ensures TrimEnd(ws, s + w) == TrimEnd(ws, s)
  {
    if w != [] {
      var sw := s + w;
      assert sw[|sw| - 1] == w[|w| - 1] && IsSpace(ws, w[|w| - 1]);
      assert sw[..|sw| - 1] == s + w[..|w| - 1];
      var front := w[..|w| - 1];
      assert AllSpace(ws, front) by {
        forall i | 0 <= i < |front| ensures IsSpace(ws, front[i]) { assert front[i] == w[i]; }
      }
      TrimEndPadded(ws, s, w[..|w| - 1]);
      assert TrimEnd(ws, sw) == TrimEnd(ws, sw[..|sw| - 1]);
    } else {
      assert s + w == s;
    }
  }

  lemma TrimStartKeepsTail(ws: SpaceSet, s: string, w: string)
    requires !AllSpace(ws, s)
    ensures TrimStart(ws, s + w) == TrimStart(ws, s) + w
  {
    var sw := s + w;
    assert sw[0] == s[0];
    if IsSpace(ws, s[0]) {
      assert sw[1..] == s[1..] + w;
      assert !AllSpace(ws, s[1..]) by {
        var k :| 0 <= k < |s| && !IsSpace(ws, s[k]);
        assert s[1..][k - 1] == s[k];
      }
      TrimStartKeepsTail(ws, s[1..], w);
    }
  }

  /** Cutting a string at two positions and putting the pieces back gives the string. */
  lemma SliceRejoin(t: string, i: nat, k: nat)
    requires i <= k <= |t|
    ensures t[..i] + t[i..k] + t[k..] == t
    ensures t[..i] + (t[i..k] + t[k..]) == t
  {
  }

  /** A string that neither starts nor ends with white space is its own trim. */
  lemma TrimUnpadded(ws: SpaceSet, s: string)
    requires s != [] && !IsSpace(ws, s[0]) && !IsSpace(ws, s[|s| - 1])
    ensures Trim(ws, s) == s
  {
    assert TrimStart(ws, s) == s;
    assert TrimEnd(ws, s) == s;
  }

  /** Surrounding white space does not change what `Trim` keeps. */
  lemma {:induction false} TrimPadded(ws: SpaceSet, w1: string, s: string, w2: string)
    requires AllSpace(ws, w1) && AllSpace(ws, w2)
    ensures Trim(ws, w1 + s + w2) == Trim(ws, s)
  {
    assert w1 + s + w2 == w1 + (s + w2);
    TrimStartPadded(ws, w1, s + w2);
    if AllSpace(ws, s) {
      assert AllSpace(ws, s + w2);
    } else {
      TrimStartKeepsTail(ws, s, w2);
      TrimEndPadded(ws, TrimStart(ws, s), w2);
    }
  }

  /** JavaScript `Array.prototype.join` / Python `str.join`. */
  function Join(xs: seq<string>, sep: string): (r: string)
    ensures |xs| == 0 ==> r == ""
    ensures |xs| == 1 ==> r == xs[0]
    ensures |xs| > 0 && xs[0] != [] ==> r != []
  {
    if |xs| == 0 then "" else if |xs| == 1 then xs[0] else xs[0] + sep + Join(xs[1..], sep)
  }

  /** Joining ends with the last element, preceded by the separator when there is more than one. */
  lemma {:induction false} JoinSnoc(xs: seq<string>, x: string, sep: string)
    ensures xs == [] ==> Join(xs + [x], sep) == x
    ensures xs != [] ==> Join(xs + [x], sep) == Join(xs, sep) + sep + x
  {
    if |xs| >= 2 {
      assert (xs + [x])[1..] == xs[1..] + [x];
      JoinSnoc(xs[1..], x, sep);
    } else if |xs| == 1 {
      assert xs + [x] == [xs[0], x];
    }
  }

  /** The first non-empty string of `xs`, or "" when all are empty: a chain of `||` (JavaScript) or `or` (Python) over strings. */
  function FirstNonEmpty(xs: seq<string>): (r: string)
    ensures r == "" <==> forall i :: 0 <= i < |xs| ==> xs[i] == ""
    ensures r != "" ==> exists i :: 0 <= i < |xs| && xs[i] == r && forall j :: 0 <= j < i ==> xs[j] == ""
  {
    if xs == [] then ""
    else if xs[0] != "" then xs[0]
    else
      var r := FirstNonEmpty(xs[1..]);
      assert r != "" ==> exists i :: 0 <= i < |xs| && xs[i] == r && forall j :: 0 <= j < i ==> xs[j] == "" by {
        if r != "" {
          var i :| 0 <= i < |xs[1..]| && xs[1..][i] == r && forall j :: 0 <= j < i ==> xs[1..][j] == "";
          assert xs[i + 1] == r;
          forall j | 0 <= j < i + 1 ensures xs[j] == "" {
            if j > 0 { assert xs[j] == xs[1..][j - 1]; }
          }
        }
      }
      r
  }

  ghost predicate OccursAt(pat: string, text: string, i: int)
  {
    0 <= i && i + |pat| <= |text| && text[i..i + |pat|] == pat
  }

  lemma OccursShift(pat: string, text: string)
    requires text != []
    ensures forall i :: 0 <= i ==> (OccursAt(pat, text[1..], i) <==> OccursAt(pat, text, i + 1))
  {
    forall i | 0 <= i ensures OccursAt(pat, text[1..], i) <==> OccursAt(pat, text, i + 1) {
      if i + |pat| <= |text| - 1 {
        assert text[1..][i..i + |pat|] == text[i + 1..i + 1 + |pat|];
      }
    }
  }

  /** Python `pat in text` for strings. */
  function Contains(text: string, pat: string): (r: bool)
    ensures r <==> exists i :: OccursAt(pat, text, i)
    decreases |text|
  {
    if |pat| > |text| then false
    else if text[..|pat|] == pat then (assert OccursAt(pat, text, 0); true)
    else (
      var r := Contains(text[1..], pat);
      OccursShift(pat, text);
      assert !OccursAt(pat, text, 0);
      assert forall i :: OccursAt(pat, text, i) ==> OccursAt(pat, text[1..], i - 1);
      r)
  }
}
