/**
 * Author formatting of the homepage script: `escapeRegExp`,
 * `highlightMyName` and `formatAuthors` in main.js.
 *
 * The script builds a case-insensitive, global regular expression from each
 * escaped name variant; since the variants contain no special characters,
 * matching is modelled as literal, case-insensitive substring search.
 */
module Authors {
  import opened Wrappers
  import opened Text

  /** The spellings of the site owner's name that are emphasised (`MY_AUTHOR_NAMES`). */
  const MyAuthorNames: seq<string> := [
    "Josep Lopez Camu\U{F1}as",
    "Josep L\U{F3}pez Camu\U{F1}as",
    "Josep Lopez Camunas",
    "Josep L\U{F3}pez Camunas"
  ]

  const Open: string := "<strong>"
  const Close: string := "</strong>"
  /** Every character that can follow `<` inside either tag. */
  const TagTail: string := "/strong>"

  // ---------------------------------------------------------------------------
  // escapeRegExp

  /** The characters `escapeRegExp` puts a backslash in front of. */
  predicate IsRegExpSpecial(c: char)
  {
    || c == '.' || c == '*' || c == '+' || c == '?' || c == '^' || c == '$' || c == '{' || c == '}'
    || c == '(' || c == ')' || c == '|' || c == '[' || c == ']' || c == '\\'
  }

  function EscapeRegExp(s: string): (r: string)
    ensures |r| >= |s|
    ensures r == s <==> forall i :: 0 <= i < |s| ==> !IsRegExpSpecial(s[i])
  {
    if s == [] then []
    else if IsRegExpSpecial(s[0]) then ['\\', s[0]] + EscapeRegExp(s[1..])
    else
      var rest := EscapeRegExp(s[1..]);
      assert (forall i :: 0 <= i < |s| ==> !IsRegExpSpecial(s[i]))
        <==> (forall i :: 0 <= i < |s| - 1 ==> !IsRegExpSpecial(s[1..][i]));
      [s[0]] + rest
  }

  /**
   * What a regular expression engine reads back from the output of `EscapeRegExp`:
   * each backslash makes the next character literal. It is not a reading of
   * arbitrary patterns (`\d` is a class, not `d`).
   */
  function Unescape(s: string): string
  {
    if |s| >= 2 && s[0] == '\\' then [s[1]] + Unescape(s[2..])
    else if s == [] then []
    else [s[0]] + Unescape(s[1..])
  }

  /** The escaped pattern denotes the original text literally. */
  lemma {:induction false} EscapeRegExpRoundTrip(s: string)
    ensures Unescape(EscapeRegExp(s)) == s
  {
    if s != [] {
      EscapeRegExpRoundTrip(s[1..]);
      var e := EscapeRegExp(s);
      if IsRegExpSpecial(s[0]) {
        assert e[2..] == EscapeRegExp(s[1..]);
      } else {
        assert e[1..] == EscapeRegExp(s[1..]);
      }
    }
  }

  /** None of the name variants is changed by escaping: each pattern is the name itself. */
  lemma NamesAreLiteral()
    ensures forall k :: 0 <= k < |MyAuthorNames| ==> EscapeRegExp(MyAuthorNames[k]) == MyAuthorNames[k]
  {
    forall k, i | 0 <= k < |MyAuthorNames| && 0 <= i < |MyAuthorNames[k]|
      ensures !IsRegExpSpecial(MyAuthorNames[k][i])
    {
    }
  }

  // ---------------------------------------------------------------------------
  // Removing the emphasis tags again

  /** The text with every `<strong>` and `</strong>` taken out, scanning left to right. */
  function RemoveStrongTags(t: string): string
    decreases |t|
  {
    if t == [] then []
    else if Open <= t then RemoveStrongTags(t[|Open|..])
    else if Close <= t then RemoveStrongTags(t[|Close|..])
    else [t[0]] + RemoveStrongTags(t[1..])
  }

  lemma RemoveTagsOpen(x: string)
    ensures RemoveStrongTags(Open + x) == RemoveStrongTags(x)
  {
    var t := Open + x;
    assert Open <= t;
    assert t[|Open|..] == x;
  }

  lemma RemoveTagsClose(x: string)
    ensures RemoveStrongTags(Close + x) == RemoveStrongTags(x)
  {
    var t := Close + x;
    assert !(Open <= t) by { assert t[1] != Open[1]; }
    assert Close <= t;
    assert t[|Close|..] == x;
  }

  /** A character other than `<` is kept and the scan moves on by one. */
  lemma RemoveTagsKeep(t: string)
    requires t != [] && t[0] != '<'
    ensures RemoveStrongTags(t) == [t[0]] + RemoveStrongTags(t[1..])
  {
    assert !(Open <= t) by { assert Open[0] == '<'; }
    assert !(Close <= t) by { assert Close[0] == '<'; }
  }

  lemma {:induction false} RemoveTagsPlainPrefix(m: string, rest: string)
    requires '<' !in m
    ensures RemoveStrongTags(m + rest) == m + RemoveStrongTags(rest)
  {
    if m != [] {
      var t := m + rest;
      assert t[0] == m[0] && t[1..] == m[1..] + rest;
      RemoveTagsKeep(t);
      RemoveTagsPlainPrefix(m[1..], rest);
    } else {
      assert m + rest == rest;
    }
  }

  lemma RemoveTagsNoAngle(t: string)
    requires '<' !in t
    ensures RemoveStrongTags(t) == t
  {
    RemoveTagsPlainPrefix(t, []);
    assert t + [] == t;
  }

  /** A tag that is not at the start of `a` does not start there in `a + b` either. */
  lemma NoTagAcross(a: string, b: string, tag: string)
    requires tag == Open || tag == Close
    requires a != [] && !(tag <= a)
    requires b == [] || b[0] !in TagTail
    ensures !(tag <= a + b)
  {
    var t := a + b;
    if |a| >= |tag| {
      assert t[..|tag|] == a[..|tag|];
    } else if b == [] {
      assert t == a;
    } else {
      assert forall i :: 1 <= i < |tag| ==> tag[i] in TagTail;
      assert t[|a|] == b[0];
    }
  }

  /**
   * No tag straddles `a` and `b` when `b` cannot continue a tag, so the tags
   * can be removed from each side separately.
   */
  lemma {:induction false} RemoveTagsAppend(a: string, b: string)
    requires b == [] || b[0] !in TagTail
    ensures RemoveStrongTags(a + b) == RemoveStrongTags(a) + RemoveStrongTags(b)
    decreases |a|
  {
    var t := a + b;
    if a == [] {
      assert t == b;
    } else if Open <= a {
      assert a == Open + a[|Open|..];
      assert t == Open + (a[|Open|..] + b);
      RemoveTagsOpen(a[|Open|..]);
      RemoveTagsOpen(a[|Open|..] + b);
      RemoveTagsAppend(a[|Open|..], b);
    } else if Close <= a {
      assert a == Close + a[|Close|..];
      assert t == Close + (a[|Close|..] + b);
      RemoveTagsClose(a[|Close|..]);
      RemoveTagsClose(a[|Close|..] + b);
      RemoveTagsAppend(a[|Close|..], b);
    } else {
      NoTagAcross(a, b, Open);
      NoTagAcross(a, b, Close);
      assert t[0] == a[0] && t[1..] == a[1..] + b;
      RemoveTagsAppend(a[1..], b);
    }
  }

  // ---------------------------------------------------------------------------
  // highlightMyName: one global, case-insensitive replace per name variant

  /** `a` and `b` are equal up to case, compared character by character as the `i` flag does. */
  predicate SameIgnoringCase(a: string, b: string)
  {
    |a| == |b| && forall i :: 0 <= i < |a| ==> Lower(a[i]) == Lower(b[i])
  }

  /** `name` occurs at position `p` of `t`, ignoring case. */
  predicate MatchesAt(t: string, p: nat, name: string)
  {
    p + |name| <= |t| && SameIgnoringCase(t[p..p + |name|], name)
  }

  ghost predicate Occurs(t: string, name: string)
  {
    exists p: nat :: MatchesAt(t, p, name)
  }

  /** The leftmost match of `name` at or after `from`, as a regular expression search finds it. */
  function FindFrom(t: string, name: string, from: nat): (r: Option<nat>)
    ensures r.Some? ==> from <= r.value && r.value + |name| <= |t| && MatchesAt(t, r.value, name)
    ensures r.Some? ==> forall q: nat :: from <= q < r.value ==> !MatchesAt(t, q, name)
    ensures r.None? ==> forall q: nat :: from <= q ==> !MatchesAt(t, q, name)
    decreases |t| - from
  {
    if from + |name| > |t| then None
    else if MatchesAt(t, from, name) then Some(from)
    else FindFrom(t, name, from + 1)
  }

  /**
   * `t.replace(new RegExp(name, "gi"), m => "<strong>" + m + "</strong>")`:
   * every leftmost, non-overlapping match is wrapped, keeping its own casing.
   */
  function EmphasizeAll(t: string, name: string): (r: string)
    requires name != []
    ensures |r| >= |t|
    ensures Occurs(t, name) ==> |r| > |t|
    ensures r == t <==> !Occurs(t, name)
    decreases |t|
  {
    match FindFrom(t, name, 0)
    case None => t
    case Some(p) =>
      assert MatchesAt(t, p, name);
      t[..p] + (Open + (t[p..p + |name|] + (Close + EmphasizeAll(t[p + |name|..], name))))
  }

  /** One step of the replace: the text before the leftmost match, the wrapped match, the rest replaced. */
  lemma EmphasizeAllUnfold(t: string, name: string, p: nat)
    requires name != [] && FindFrom(t, name, 0) == Some(p)
    ensures EmphasizeAll(t, name)
      == t[..p] + (Open + (t[p..p + |name|] + (Close + EmphasizeAll(t[p + |name|..], name))))
  {
  }

  /** A name no tag can interfere with: non-empty, no `<`, and not starting like a tag's tail. */
  predicate GoodName(name: string)
  {
    name != [] && '<' !in name && Lower(name[0]) !in TagTail
  }

  predicate AllGood(names: seq<string>)
  {
    forall k :: 0 <= k < |names| ==> GoodName(names[k])
  }

  lemma MyAuthorNamesGood()
    ensures AllGood(MyAuthorNames)
  {
    forall k | 0 <= k < |MyAuthorNames| ensures GoodName(MyAuthorNames[k]) {
      var name := MyAuthorNames[k];
      assert Lower(name[0]) == 'j';
      assert forall i :: 0 <= i < |name| ==> name[i] != '<';
    }
  }

  lemma SameIgnoringCasePlain(m: string, name: string)
    requires SameIgnoringCase(m, name) && '<' !in name
    ensures '<' !in m
  {
    forall i | 0 <= i < |m| ensures m[i] != '<' {
      assert name[i] != '<';
    }
  }

  /** Matched text has no `<` and cannot continue a tag. */
  lemma MatchIsPlain(t: string, p: nat, name: string)
    requires GoodName(name) && MatchesAt(t, p, name)
    ensures '<' !in t[p..p + |name|]
    ensures t[p] !in TagTail
  {
    var m := t[p..p + |name|];
    SameIgnoringCasePlain(m, name);
    assert Lower(m[0]) == Lower(name[0]);
  }

  /** One wrapped match between untouched text `pre` and the rest of the replace. */
  lemma RemoveTagsWrapped(pre: string, m: string, w: string, rest: string)
    requires m != [] && '<' !in m && m[0] !in TagTail
    requires RemoveStrongTags(w) == RemoveStrongTags(rest)
    ensures RemoveStrongTags(pre + (Open + (m + (Close + w)))) == RemoveStrongTags(pre + (m + rest))
  {
    var tail := m + (Close + w);
    calc {
      RemoveStrongTags(pre + (Open + tail));
      { RemoveTagsAppend(pre, Open + tail); }
      RemoveStrongTags(pre) + RemoveStrongTags(Open + tail);
      { RemoveTagsOpen(tail); RemoveTagsPlainPrefix(m, Close + w); RemoveTagsClose(w); }
      RemoveStrongTags(pre) + (m + RemoveStrongTags(rest));
      { RemoveTagsPlainPrefix(m, rest); }
      RemoveStrongTags(pre) + RemoveStrongTags(m + rest);
      { RemoveTagsAppend(pre, m + rest); }
      RemoveStrongTags(pre + (m + rest));
    }
  }

  /** Removing the tags one replace inserted gives back what it was applied to. */
  lemma {:induction false} RemoveTagsEmphasizeAll(t: string, name: string)
    requires GoodName(name)
    ensures RemoveStrongTags(EmphasizeAll(t, name)) == RemoveStrongTags(t)
    decreases |t|
  {
    var found := FindFrom(t, name, 0);
    if found.Some? {
      var p := found.value;
      EmphasizeAllUnfold(t, name, p);
      var pre, m, rest := t[..p], t[p..p + |name|], t[p + |name|..];
      calc {
        RemoveStrongTags(EmphasizeAll(t, name));
        RemoveStrongTags(pre + (Open + (m + (Close + EmphasizeAll(rest, name)))));
        { RemoveTagsEmphasizeAll(rest, name);
          MatchIsPlain(t, p, name);
          RemoveTagsWrapped(pre, m, EmphasizeAll(rest, name), rest); }
        RemoveStrongTags(pre + (m + rest));
        { SliceRejoin(t, p, p + |name|); }
        RemoveStrongTags(t);
      }
    }
  }

  /** `q` comes right after an opening tag in `u`. */
  predicate AfterOpen(u: string, q: nat)
  {
    |Open| <= q <= |u| && u[q - |Open|..q] == Open
  }

  /** A closing tag starts at `e` in `u`. */
  predicate BeforeClose(u: string, e: nat)
  {
    e + |Close| <= |u| && u[e..e + |Close|] == Close
  }

  /** The occurrence of `name` at `q` sits between an opening and a closing tag. */
  predicate Wrapped(u: string, q: nat, name: string)
  {
    AfterOpen(u, q) && BeforeClose(u, q + |name|)
  }

  /** Every occurrence of `name` in `u`, ignoring case, sits between an opening and a closing tag. */
  ghost predicate AllWrapped(u: string, name: string)
  {
    forall q: nat :: MatchesAt(u, q, name) ==> Wrapped(u, q, name)
  }

  /** A match inside a slice is a match of the whole text, shifted by the slice's start. */
  lemma MatchesAtSlice(u: string, s: nat, e: nat, j: nat, name: string)
    requires s <= e <= |u|
    ensures MatchesAt(u[s..e], j, name) <==> s + j + |name| <= e && MatchesAt(u, s + j, name)
  {
    if s + j + |name| <= e {
      var a, b := u[s..e][j..j + |name|], u[s + j..s + j + |name|];
      forall k | 0 <= k < |a| ensures a[k] == b[k] {
        assert u[s..e][j + k] == u[s + j + k];
      }
      assert a == b;
    }
  }

  /** Whether `j` follows an opening tag is the same in a slice as in the whole text, once the tag fits in the slice. */
  lemma AfterOpenSlice(u: string, s: nat, e: nat, j: nat)
    requires s <= e <= |u|
    ensures AfterOpen(u[s..e], j) ==> AfterOpen(u, s + j)
    ensures |Open| <= j <= e - s && AfterOpen(u, s + j) ==> AfterOpen(u[s..e], j)
  {
    if |Open| <= j <= e - s {
      var a, b := u[s..e][j - |Open|..j], u[s + j - |Open|..s + j];
      forall k | 0 <= k < |a| ensures a[k] == b[k] {
        assert u[s..e][j - |Open| + k] == u[s + j - |Open| + k];
      }
      assert a == b;
    }
  }

  /** Whether a closing tag starts at `j` is the same in a slice as in the whole text, once the tag fits in the slice. */
  lemma BeforeCloseSlice(u: string, s: nat, e: nat, j: nat)
    requires s <= e <= |u|
    ensures BeforeClose(u[s..e], j) ==> BeforeClose(u, s + j)
    ensures j + |Close| <= e - s && BeforeClose(u, s + j) ==> BeforeClose(u[s..e], j)
  {
    if j + |Close| <= e - s {
      var a, b := u[s..e][j..j + |Close|], u[s + j..s + j + |Close|];
      forall k | 0 <= k < |a| ensures a[k] == b[k] {
        assert u[s..e][j + k] == u[s + j + k];
      }
      assert a == b;
    }
  }

  /** A match of a good name never contains a `<`. */
  lemma NoAngleInMatch(u: string, q: nat, name: string, i: nat)
    requires GoodName(name) && MatchesAt(u, q, name) && i < |u| && u[i] == '<'
    ensures i < q || q + |name| <= i
  {
    if q <= i < q + |name| {
      assert u[q..q + |name|][i - q] == '<';
      MatchIsPlain(u, q, name);
    }
  }

  /** After its `<`, each tag is made of `TagTail` characters. */
  lemma TagTailChars(tag: string, k: nat)
    requires tag == Open || tag == Close
    requires 0 < k < |tag|
    ensures tag[k] in TagTail
  {
    if tag == Open {
      assert Open[k] == TagTail[k];
    } else {
      assert Close[k] == TagTail[k - 1];
    }
  }

  /** A match of a good name lies wholly before or wholly after a tag that starts at `s`. */
  lemma MatchApartFromTag(u: string, q: nat, name: string, s: nat, tag: string)
    requires GoodName(name) && MatchesAt(u, q, name)
    requires tag == Open || tag == Close
    requires s + |tag| <= |u| && u[s..s + |tag|] == tag
    ensures q + |name| <= s || s + |tag| <= q
  {
    assert u[s] == u[s..s + |tag|][0];
    NoAngleInMatch(u, q, name, s);
    if s < q < s + |tag| {
      MatchIsPlain(u, q, name);
      assert u[q] == u[s..s + |tag|][q - s];
      TagTailChars(tag, q - s);
    }
  }

  /** A wrapped match inside a slice is a wrapped match of the whole text. */
  lemma LiftWrapped(u: string, s: nat, e: nat, j: nat, name: string)
    requires s <= e <= |u| && AllWrapped(u[s..e], name)
    requires s + j + |name| <= e && MatchesAt(u, s + j, name)
    ensures Wrapped(u, s + j, name)
  {
    MatchesAtSlice(u, s, e, j, name);
    AfterOpenSlice(u, s, e, j);
    BeforeCloseSlice(u, s, e, j + |name|);
  }

  /** No match runs across a `<`, so wrapped matches on both sides stay wrapped in the concatenation. */
  lemma ConcatAllWrapped(a: string, b: string, name: string)
    requires GoodName(name) && b != [] && b[0] == '<'
    requires AllWrapped(a, name) && AllWrapped(b, name)
    ensures AllWrapped(a + b, name)
  {
    var u := a + b;
    assert u[0..|a|] == a && u[|a|..|u|] == b;
    forall q: nat | MatchesAt(u, q, name) ensures Wrapped(u, q, name) {
      NoAngleInMatch(u, q, name, |a|);
      if q + |name| <= |a| {
        LiftWrapped(u, 0, |a|, q, name);
      } else {
        LiftWrapped(u, |a|, |u|, q - |a|, name);
      }
    }
  }

  /**
   * Every occurrence of `name` in `u` is followed by a closing tag, and all but
   * one at the very start come right after an opening tag.
   */
  ghost predicate WrappedAfterStart(u: string, name: string)
  {
    forall q: nat :: MatchesAt(u, q, name) ==> (q == 0 || AfterOpen(u, q)) && BeforeClose(u, q + |name|)
  }

  /** One match after an opening tag put in front of `w`. */
  lemma OpenWrappedAt(w: string, q: nat, name: string)
    requires GoodName(name) && WrappedAfterStart(w, name) && MatchesAt(Open + w, q, name)
    ensures Wrapped(Open + w, q, name)
  {
    var u := Open + w;
    assert u[0..|Open|] == Open && u[|Open|..|u|] == w;
    MatchApartFromTag(u, q, name, 0, Open);
    var j := q - |Open|;
    MatchesAtSlice(u, |Open|, |u|, j, name);
    BeforeCloseSlice(u, |Open|, |u|, j + |name|);
    if j != 0 {
      AfterOpenSlice(u, |Open|, |u|, j);
    }
  }

  /** An opening tag in front of a text whose matches are wrapped, except at its start, wraps that one too. */
  lemma OpenAllWrapped(w: string, name: string)
    requires GoodName(name) && WrappedAfterStart(w, name)
    ensures AllWrapped(Open + w, name)
  {
    forall q: nat | MatchesAt(Open + w, q, name) ensures Wrapped(Open + w, q, name) {
      OpenWrappedAt(w, q, name);
    }
  }

  /** A closing tag in front of a text adds no match. */
  lemma CloseAllWrapped(y: string, name: string)
    requires GoodName(name) && AllWrapped(y, name)
    ensures AllWrapped(Close + y, name)
  {
    var u := Close + y;
    assert u[0..|Close|] == Close && u[|Close|..|u|] == y;
    forall q: nat | MatchesAt(u, q, name) ensures Wrapped(u, q, name) {
      MatchApartFromTag(u, q, name, 0, Close);
      MatchesAtSlice(u, |Close|, |u|, q - |Close|, name);
      AfterOpenSlice(u, |Close|, |u|, q - |Close|);
      BeforeCloseSlice(u, |Close|, |u|, q - |Close| + |name|);
    }
  }

  /** One match in a text `m` that is one match of `name` and nothing more, then a closing tag and wrapped text. */
  lemma MatchThenTaggedAt(m: string, z: string, q: nat, name: string)
    requires GoodName(name) && BeforeClose(z, 0) && AllWrapped(z, name)
    requires forall j: nat :: MatchesAt(m, j, name) ==> j == 0 && |m| == |name|
    requires MatchesAt(m + z, q, name)
    ensures q == 0 || Wrapped(m + z, q, name)
    ensures BeforeClose(m + z, q + |name|)
  {
    var u := m + z;
    assert u[0..|m|] == m && u[|m|..|u|] == z;
    assert u[|m|] == z[0..|Close|][0];
    NoAngleInMatch(u, q, name, |m|);
    if q + |name| <= |m| {
      MatchesAtSlice(u, 0, |m|, q, name);
      BeforeCloseSlice(u, |m|, |u|, 0);
    } else {
      LiftWrapped(u, |m|, |u|, q - |m|, name);
    }
  }

  /** A text `m` that is one match of `name` and nothing more, then a closing tag and wrapped text: only the start can lack its opening tag. */
  lemma MatchThenTagged(m: string, z: string, name: string)
    requires GoodName(name) && BeforeClose(z, 0) && AllWrapped(z, name)
    requires forall j: nat :: MatchesAt(m, j, name) ==> j == 0 && |m| == |name|
    ensures WrappedAfterStart(m + z, name)
  {
    forall q: nat | MatchesAt(m + z, q, name) ensures (q == 0 || AfterOpen(m + z, q)) && BeforeClose(m + z, q + |name|) {
      MatchThenTaggedAt(m, z, q, name);
    }
  }

  /**
   * In a text made of `x`, an opening tag, a match `m`, a closing tag and `y`,
   * a good name occurs only between an opening and a closing tag when that
   * holds in `x` and in `y` and the name occurs in `m` only as all of it.
   */
  lemma WrappedAllWrapped(x: string, m: string, y: string, name: string)
    requires GoodName(name)
    requires AllWrapped(x, name) && AllWrapped(y, name)
    requires forall j: nat :: MatchesAt(m, j, name) ==> j == 0 && |m| == |name|
    ensures AllWrapped(x + (Open + (m + (Close + y))), name)
  {
    CloseAllWrapped(y, name);
    assert (Close + y)[0..|Close|] == Close;
    MatchThenTagged(m, Close + y, name);
    OpenAllWrapped(m + (Close + y), name);
    ConcatAllWrapped(x, Open + (m + (Close + y)), name);
  }

  /** Before a match of a good name, the wrapped matches of another good name keep their closing tags. */
  lemma AllWrappedBeforeMatch(t: string, p: nat, name: string, other: string)
    requires GoodName(name) && GoodName(other) && MatchesAt(t, p, name) && AllWrapped(t, other)
    ensures AllWrapped(t[0..p], other)
  {
    forall j: nat | MatchesAt(t[0..p], j, other) ensures Wrapped(t[0..p], j, other) {
      MatchesAtSlice(t, 0, p, j, other);
      MatchApartFromTag(t, p, name, j + |other|, Close);
      AfterOpenSlice(t, 0, p, j);
      BeforeCloseSlice(t, 0, p, j + |other|);
    }
  }

  /** Inside a match of a good name, another good name whose matches are wrapped can only occur as all of it. */
  lemma WrappedInsideMatch(t: string, p: nat, m: string, name: string, other: string)
    requires GoodName(name) && GoodName(other) && MatchesAt(t, p, name) && AllWrapped(t, other)
    requires m == t[p..p + |name|]
    ensures forall j: nat :: MatchesAt(m, j, other) ==> j == 0 && |m| == |other|
  {
    forall j: nat | MatchesAt(m, j, other) ensures j == 0 && |m| == |other| {
      MatchesAtSlice(t, p, p + |name|, j, other);
      MatchApartFromTag(t, p, name, p + j - |Open|, Open);
      MatchApartFromTag(t, p, name, p + |other|, Close);
    }
  }

  /** After a match of a good name, the matches of another good name stay wrapped. */
  lemma AllWrappedAfterMatch(t: string, p: nat, name: string, other: string)
    requires GoodName(name) && GoodName(other) && MatchesAt(t, p, name) && AllWrapped(t, other)
    ensures AllWrapped(t[p + |name|..|t|], other)
  {
    var e := p + |name|;
    forall j: nat | MatchesAt(t[e..|t|], j, other) ensures Wrapped(t[e..|t|], j, other) {
      MatchesAtSlice(t, e, |t|, j, other);
      MatchApartFromTag(t, p, name, e + j - |Open|, Open);
      AfterOpenSlice(t, e, |t|, j);
      BeforeCloseSlice(t, e, |t|, j + |other|);
    }
  }

  /**
   * Every occurrence of the name left in the result of one replace sits between
   * an opening and a closing tag: the `g` flag wraps all matches, not just the first.
   */
  lemma {:induction false} EmphasizeAllWrapsEvery(t: string, name: string)
    requires GoodName(name)
    ensures AllWrapped(EmphasizeAll(t, name), name)
    decreases |t|
  {
    var found := FindFrom(t, name, 0);
    if found.Some? {
      var p := found.value;
      var n := |name|;
      var x, m, rest := t[0..p], t[p..p + n], t[p + n..];
      EmphasizeAllUnfold(t, name, p);
      assert t[..p] == x;
      forall j: nat ensures !MatchesAt(x, j, name) {
        MatchesAtSlice(t, 0, p, j, name);
      }
      EmphasizeAllWrapsEvery(rest, name);
      WrappedAllWrapped(x, m, EmphasizeAll(rest, name), name);
    }
  }

  /** A replace with one good name keeps every occurrence of another good name between its tags. */
  lemma {:induction false} EmphasizeAllKeepsWrapped(t: string, name: string, other: string)
    requires GoodName(name) && GoodName(other) && AllWrapped(t, other)
    ensures AllWrapped(EmphasizeAll(t, name), other)
    decreases |t|
  {
    var found := FindFrom(t, name, 0);
    if found.Some? {
      var p := found.value;
      var n := |name|;
      var x, m, rest := t[0..p], t[p..p + n], t[p + n..];
      EmphasizeAllUnfold(t, name, p);
      assert t[..p] == x && rest == t[p + n..|t|];
      AllWrappedBeforeMatch(t, p, name, other);
      WrappedInsideMatch(t, p, m, name, other);
      AllWrappedAfterMatch(t, p, name, other);
      EmphasizeAllKeepsWrapped(rest, name, other);
      WrappedAllWrapped(x, m, EmphasizeAll(rest, name), other);
    }
  }

  /** The `forEach` over the name variants, as a fold over the first `|names|` of them. */
  function HighlightFold(s: string, names: seq<string>): (r: string)
    requires forall k :: 0 <= k < |names| ==> names[k] != []
    ensures |r| >= |s|
  {
    if names == [] then s
    else EmphasizeAll(HighlightFold(s, names[..|names| - 1]), names[|names| - 1])
  }

  /** What `highlightMyName(s)` returns; it never shortens its input. */
  function Highlighted(s: string): (r: string)
    ensures |r| >= |s|
  {
    MyAuthorNamesGood();
    HighlightFold(s, MyAuthorNames)
  }

  method HighlightMyName(authorStr: string) returns (result: string)
    ensures result == Highlighted(authorStr)
  {
    MyAuthorNamesGood();
    result := authorStr;
    for k := 0 to |MyAuthorNames|
      invariant result == HighlightFold(authorStr, MyAuthorNames[..k])
    {
      assert MyAuthorNames[..k + 1][..k] == MyAuthorNames[..k];
      result := EmphasizeAll(result, MyAuthorNames[k]);
    }
    assert MyAuthorNames[..|MyAuthorNames|] == MyAuthorNames;
  }

  lemma {:induction false} RemoveTagsFold(s: string, names: seq<string>)
    requires AllGood(names)
    ensures RemoveStrongTags(HighlightFold(s, names)) == RemoveStrongTags(s)
  {
    if names != [] {
      RemoveTagsFold(s, names[..|names| - 1]);
      RemoveTagsEmphasizeAll(HighlightFold(s, names[..|names| - 1]), names[|names| - 1]);
    }
  }

  /** A fold that did not lengthen its input changed nothing, and no variant occurs in it. */
  lemma {:induction false} FoldSameLength(s: string, names: seq<string>)
    requires forall k :: 0 <= k < |names| ==> names[k] != []
    requires |HighlightFold(s, names)| == |s|
    ensures HighlightFold(s, names) == s
    ensures forall k :: 0 <= k < |names| ==> !Occurs(s, names[k])
  {
    if names != [] {
      var init := names[..|names| - 1];
      FoldSameLength(s, init);
      forall k | 0 <= k < |names| - 1 ensures !Occurs(s, names[k]) {
        assert names[k] == init[k];
      }
    }
  }

  lemma {:induction false} FoldNoOccurrence(s: string, names: seq<string>)
    requires forall k :: 0 <= k < |names| ==> names[k] != []
    requires forall k :: 0 <= k < |names| ==> !Occurs(s, names[k])
    ensures HighlightFold(s, names) == s
  {
    if names != [] {
      var init := names[..|names| - 1];
      forall k | 0 <= k < |init| ensures !Occurs(s, init[k]) {
        assert init[k] == names[k];
      }
      FoldNoOccurrence(s, init);
    }
  }

  /** The input comes back unchanged exactly when no name variant occurs in it, ignoring case. */
  lemma HighlightedUnchangedIff(s: string)
    ensures Highlighted(s) == s <==> forall k :: 0 <= k < |MyAuthorNames| ==> !Occurs(s, MyAuthorNames[k])
  {
    MyAuthorNamesGood();
    if Highlighted(s) == s {
      FoldSameLength(s, MyAuthorNames);
    }
    if forall k :: 0 <= k < |MyAuthorNames| ==> !Occurs(s, MyAuthorNames[k]) {
      FoldNoOccurrence(s, MyAuthorNames);
    }
  }

  /** Taking the `<strong>` tags out of the result gives back the input, original casing kept. */
  lemma RemoveTagsHighlighted(s: string)
    ensures RemoveStrongTags(Highlighted(s)) == RemoveStrongTags(s)
    ensures '<' !in s ==> RemoveStrongTags(Highlighted(s)) == s
  {
    MyAuthorNamesGood();
    RemoveTagsFold(s, MyAuthorNames);
    if '<' !in s {
      RemoveTagsNoAngle(s);
    }
  }

  /** After the fold, every occurrence of every variant sits right after an opening tag. */
  lemma {:induction false} HighlightFoldWrapsEvery(s: string, names: seq<string>)
    requires AllGood(names)
    ensures forall k :: 0 <= k < |names| ==> AllWrapped(HighlightFold(s, names), names[k])
  {
    if names != [] {
      var init, last := names[..|names| - 1], names[|names| - 1];
      assert AllGood(init) by {
        forall k | 0 <= k < |init| ensures GoodName(init[k]) {
          assert init[k] == names[k];
        }
      }
      HighlightFoldWrapsEvery(s, init);
      var u := HighlightFold(s, init);
      EmphasizeAllWrapsEvery(u, last);
      forall k | 0 <= k < |names| - 1 ensures AllWrapped(HighlightFold(s, names), names[k]) {
        assert init[k] == names[k];
        EmphasizeAllKeepsWrapped(u, last, names[k]);
      }
    }
  }

  /** Every occurrence of a name variant in the result, in any letter case, is wrapped in `<strong>`. */
  lemma HighlightedWrapsEvery(s: string)
    ensures forall k :: 0 <= k < |MyAuthorNames| ==> AllWrapped(Highlighted(s), MyAuthorNames[k])
  {
    MyAuthorNamesGood();
    HighlightFoldWrapsEvery(s, MyAuthorNames);
  }

  // ---------------------------------------------------------------------------
  // formatAuthors: split on /\s+and\s+/i, trim, drop empty parts, highlight, join

  /** End of the run of white space that starts at `i`. */
  function SkipSpaces(t: string, i: nat): (k: nat)
    requires i <= |t|
    ensures i <= k <= |t|
    ensures forall q :: i <= q < k ==> IsSpace(JsSpace, t[q])
    ensures k == |t| || !IsSpace(JsSpace, t[k])
    decreases |t| - i
  {
    if i < |t| && IsSpace(JsSpace, t[i]) then SkipSpaces(t, i + 1) else i
  }

  /**
   * Where a match of `\s+and\s+` (any case) that starts at `i` ends, if there
   * is one. Backtracking cannot help the greedy `\s+`, since `a` is not white space.
   */
  function SeparatorAt(t: string, i: nat): (r: Option<nat>)
    ensures r.Some? ==> i + 5 <= r.value <= |t|
  {
    if i < |t| && IsSpace(JsSpace, t[i]) then
      var j := SkipSpaces(t, i);
      if j + 3 < |t| && SameIgnoringCase(t[j..j + 3], "and") && IsSpace(JsSpace, t[j + 3]) then
        Some(SkipSpaces(t, j + 3))
      else None
    else None
  }

  lemma NoSeparatorPastEnd(t: string, from: nat)
    requires from >= |t|
    ensures forall q: nat :: from <= q ==> SeparatorAt(t, q).None?
  {
  }

  /** The leftmost separator at or after `from`, as start and end positions. */
  function FirstSeparator(t: string, from: nat): (r: Option<(nat, nat)>)
    ensures r.Some? ==> from <= r.value.0 && SeparatorAt(t, r.value.0) == Some(r.value.1)
    ensures r.Some? ==> forall q: nat :: from <= q < r.value.0 ==> SeparatorAt(t, q).None?
    ensures r.None? ==> forall q: nat :: from <= q ==> SeparatorAt(t, q).None?
    decreases |t| - from
  {
    if from >= |t| then
      NoSeparatorPastEnd(t, from);
      None
    else match SeparatorAt(t, from)
      case Some(k) => Some((from, k))
      case None => FirstSeparator(t, from + 1)
  }

  predicate CharsFrom(p: string, t: string)
  {
    forall c :: c in p ==> c in t
  }

  /** `t.split(/\s+and\s+/i)`: the text between non-overlapping, left-to-right separators. */
  function SplitOnAnd(t: string): (parts: seq<string>)
    ensures |parts| >= 1
    ensures forall k :: 0 <= k < |parts| ==> CharsFrom(parts[k], t)
    decreases |t|
  {
    match FirstSeparator(t, 0)
    case None => [t]
    case Some((i, k)) =>
      var rest := SplitOnAnd(t[k..]);
      assert forall k' :: 0 <= k' < |rest| ==> CharsFrom(rest[k'], t) by {
        assert CharsFrom(t[k..], t);
      }
      [t[..i]] + rest
  }

  /** The separators `SplitOnAnd` cut out, in order. */
  function AndSeparators(t: string): seq<string>
    decreases |t|
  {
    match FirstSeparator(t, 0)
    case None => []
    case Some((i, k)) => [t[i..k]] + AndSeparators(t[k..])
  }

  /** `parts[0] + seps[0] + parts[1] + ... + parts[n]`. */
  function Interleave(parts: seq<string>, seps: seq<string>): string
    requires |parts| == |seps| + 1
  {
    if seps == [] then parts[0] else parts[0] + seps[0] + Interleave(parts[1..], seps[1..])
  }

  lemma InterleaveCons(p: string, w: string, parts: seq<string>, seps: seq<string>)
    requires |parts| == |seps| + 1
    ensures Interleave([p] + parts, [w] + seps) == p + w + Interleave(parts, seps)
  {
    assert ([p] + parts)[1..] == parts;
    assert ([w] + seps)[1..] == seps;
  }

  /** Splitting loses nothing: putting the separators back gives the author string. */
  lemma {:induction false} SplitOnAndRejoin(t: string)
    ensures |AndSeparators(t)| + 1 == |SplitOnAnd(t)|
    ensures Interleave(SplitOnAnd(t), AndSeparators(t)) == t
    decreases |t|
  {
    var found := FirstSeparator(t, 0);
    if found.Some? {
      var (i, k) := found.value;
      SplitOnAndUnfold(t, i, k);
      SplitOnAndRejoin(t[k..]);
      var parts, seps := SplitOnAnd(t[k..]), AndSeparators(t[k..]);
      InterleaveCons(t[..i], t[i..k], parts, seps);
      calc {
        Interleave(SplitOnAnd(t), AndSeparators(t));
        Interleave([t[..i]] + parts, [t[i..k]] + seps);
        t[..i] + t[i..k] + t[k..];
        { SliceRejoin(t, i, k); }
        t;
      }
    }
  }

  /** One step of the split: the text before the first separator, then the split of the rest. */
  lemma SplitOnAndUnfold(t: string, i: nat, k: nat)
    requires FirstSeparator(t, 0) == Some((i, k))
    ensures i + 5 <= k <= |t|
    ensures SplitOnAnd(t) == [t[..i]] + SplitOnAnd(t[k..])
    ensures AndSeparators(t) == [t[i..k]] + AndSeparators(t[k..])
  {
  }

  /** White space, the word `and` in any case, white space. */
  ghost predicate IsAndSeparator(w: string)
  {
    exists j :: 1 <= j && j + 3 < |w| && AllSpace(JsSpace, w[..j])
      && SameIgnoringCase(w[j..j + 3], "and") && AllSpace(JsSpace, w[j + 3..])
  }

  /**
   * A match of `\s+and\s+` can start at `i` with the word at `j`: white space
   * from `i` up to `j`, then "and" in any case, then white space.
   */
  ghost predicate AndWordAt(t: string, i: nat, j: nat)
  {
    i < j && j + 3 < |t| && AllSpace(JsSpace, t[i..j])
      && SameIgnoringCase(t[j..j + 3], "and") && IsSpace(JsSpace, t[j + 3])
  }

  /**
   * `SeparatorAt` finds a separator exactly where the regular expression can
   * match, and the greedy trailing `\s+` runs up to the next non-space.
   */
  lemma SeparatorAtMatches(t: string, i: nat)
    ensures SeparatorAt(t, i).Some? <==> exists j: nat :: AndWordAt(t, i, j)
    ensures SeparatorAt(t, i).Some? ==> SeparatorAt(t, i).value == |t| || !IsSpace(JsSpace, t[SeparatorAt(t, i).value])
  {
    if exists j: nat :: AndWordAt(t, i, j) {
      var j: nat :| AndWordAt(t, i, j);
      assert IsSpace(JsSpace, t[i]) by { assert t[i..j][0] == t[i]; }
      assert !IsSpace(JsSpace, t[j]) by {
        assert Lower(t[j..j + 3][0]) == Lower('a');
      }
      SkipSpacesStops(t, i, j);
    }
    if SeparatorAt(t, i).Some? {
      var j := SkipSpaces(t, i);
      var spaces := t[i..j];
      assert AllSpace(JsSpace, spaces) by {
        forall q | 0 <= q < |spaces| ensures IsSpace(JsSpace, spaces[q]) { assert spaces[q] == t[i + q]; }
      }
      assert AndWordAt(t, i, j);
    }
  }

  /** The run `SkipSpaces` passes over is all white space. */
  lemma SkippedAllSpace(t: string, i: nat)
    requires i <= |t|
    ensures AllSpace(JsSpace, t[i..SkipSpaces(t, i)])
  {
    var k := SkipSpaces(t, i);
    var run := t[i..k];
    forall q | 0 <= q < |run| ensures IsSpace(JsSpace, run[q]) {
      assert run[q] == t[i + q];
    }
  }

  /** Over a run of white space, `SkipSpaces` stops at the first non-space. */
  lemma SkipSpacesStops(t: string, i: nat, j: nat)
    requires i <= j < |t| && AllSpace(JsSpace, t[i..j]) && !IsSpace(JsSpace, t[j])
    ensures SkipSpaces(t, i) == j
  {
    forall q | i <= q < j ensures IsSpace(JsSpace, t[q]) {
      assert t[i..j][q - i] == t[q];
    }
  }

  /** A slice of a slice is a slice of the whole. */
  lemma SliceOfSlice(t: string, i: nat, k: nat, a: nat, b: nat)
    requires i <= k <= |t| && a <= b <= k - i
    ensures t[i..k][a..b] == t[i + a..i + b]
  {
    var x, y := t[i..k][a..b], t[i + a..i + b];
    forall q | 0 <= q < |x| ensures x[q] == y[q] {
      assert t[i..k][a + q] == t[i + a + q];
    }
  }

  lemma SeparatorShape(t: string, i: nat)
    requires SeparatorAt(t, i).Some?
    ensures IsAndSeparator(t[i..SeparatorAt(t, i).value])
  {
    var j := SkipSpaces(t, i);
    var k := SeparatorAt(t, i).value;
    assert i < j && j + 3 < k && k == SkipSpaces(t, j + 3);
    var w, d := t[i..k], j - i;
    assert AllSpace(JsSpace, w[..d]) by {
      SkippedAllSpace(t, i);
      SliceOfSlice(t, i, k, 0, d);
      assert w[..d] == w[0..d];
    }
    assert SameIgnoringCase(w[d..d + 3], "and") by {
      SliceOfSlice(t, i, k, d, d + 3);
    }
    assert AllSpace(JsSpace, w[d + 3..]) by {
      SkippedAllSpace(t, j + 3);
      SliceOfSlice(t, i, k, d + 3, |w|);
      assert w[d + 3..] == w[d + 3..|w|];
    }
  }

  /**
   * Part `k` is cut at the leftmost separator of the text that remains from it
   * on: none starts inside the part, and the next separator starts right after it.
   */
  ghost predicate CutLeftmost(parts: seq<string>, seps: seq<string>, k: int)
    requires |parts| == |seps| + 1 && 0 <= k < |parts|
  {
    var rest := Interleave(parts[k..], seps[k..]);
    && (forall q: nat :: q < |parts[k]| ==> SeparatorAt(rest, q).None?)
    && (k < |seps| ==> SeparatorAt(rest, |parts[k]|) == Some(|parts[k]| + |seps[k]|))
  }

  /** A part's cut carries over when parts and separators are put in front of it. */
  lemma CutLeftmostTail(parts: seq<string>, seps: seq<string>, n: int)
    requires |parts| == |seps| + 1 && 1 <= n < |parts|
    requires CutLeftmost(parts[1..], seps[1..], n - 1)
    ensures CutLeftmost(parts, seps, n)
  {
    assert parts[1..][n - 1..] == parts[n..] && seps[1..][n - 1..] == seps[n..];
    assert parts[1..][n - 1] == parts[n];
    if n < |seps| {
      assert seps[1..][n - 1] == seps[n];
    }
  }

  /** The first part ends where the leftmost separator of the whole text starts. */
  lemma CutLeftmostHead(t: string)
    ensures |AndSeparators(t)| + 1 == |SplitOnAnd(t)|
    ensures CutLeftmost(SplitOnAnd(t), AndSeparators(t), 0)
  {
    SplitOnAndRejoin(t);
    var parts, seps := SplitOnAnd(t), AndSeparators(t);
    assert parts[0..] == parts && seps[0..] == seps;
    assert Interleave(parts[0..], seps[0..]) == t;
    var found := FirstSeparator(t, 0);
    if found.None? {
      assert parts == [t] && seps == [];
      assert forall q: nat :: q < |parts[0]| ==> SeparatorAt(t, q).None?;
    } else {
      var (i, k) := found.value;
      SplitOnAndUnfold(t, i, k);
      assert |parts[0]| == i && |seps[0]| == k - i;
      assert forall q: nat :: q < i ==> SeparatorAt(t, q).None?;
      assert SeparatorAt(t, i) == Some(k);
    }
  }

  /** `split` scans left to right: every part ends at the first separator after it starts. */
  lemma {:induction false} SplitOnAndLeftmost(t: string)
    ensures |AndSeparators(t)| + 1 == |SplitOnAnd(t)|
    ensures forall k :: 0 <= k < |SplitOnAnd(t)| ==> CutLeftmost(SplitOnAnd(t), AndSeparators(t), k)
    decreases |t|
  {
    CutLeftmostHead(t);
    var parts, seps := SplitOnAnd(t), AndSeparators(t);
    var found := FirstSeparator(t, 0);
    if found.Some? {
      var (i, k) := found.value;
      SplitOnAndUnfold(t, i, k);
      SplitOnAndLeftmost(t[k..]);
      assert parts[1..] == SplitOnAnd(t[k..]) && seps[1..] == AndSeparators(t[k..]);
      forall n | 1 <= n < |parts| ensures CutLeftmost(parts, seps, n) {
        CutLeftmostTail(parts, seps, n);
      }
    }
  }

  lemma ExampleFirstCut()
    ensures FirstSeparator("x and and y", 0) == Some((1, 6))
  {
    var t := "x and and y";
    assert SeparatorAt(t, 0).None?;
    assert SkipSpaces(t, 1) == 2 && SkipSpaces(t, 5) == 6;
    assert SameIgnoringCase(t[2..5], "and");
    assert SeparatorAt(t, 1) == Some(6);
  }

  lemma ExampleNoSecondCut()
    ensures FirstSeparator("and y", 0) == None
  {
    var u := "and y";
    assert SkipSpaces(u, 3) == 4;
    forall q: nat ensures SeparatorAt(u, q).None? {
      if q < |u| && IsSpace(JsSpace, u[q]) {
        assert q == 3;
      }
    }
  }

  /** After a cut the scan starts afresh, so an "and" that ends one separator cannot begin the next. */
  lemma SplitOnAndExample()
    ensures SplitOnAnd("x and and y") == ["x", "and y"]
  {
    var t := "x and and y";
    ExampleFirstCut();
    ExampleNoSecondCut();
    assert t[6..] == "and y" && t[..1] == "x";
    SplitOnAndUnfold(t, 1, 6);
  }

  /** Every piece `SplitOnAnd` cuts out is a whole separator. */
  lemma {:induction false} AndSeparatorsShape(t: string)
    ensures forall k :: 0 <= k < |AndSeparators(t)| ==> IsAndSeparator(AndSeparators(t)[k])
    decreases |t|
  {
    match FirstSeparator(t, 0)
    case None =>
    case Some((i, k)) =>
      AndSeparatorsShape(t[k..]);
      SeparatorShape(t, i);
      var seps := AndSeparators(t);
      assert seps[1..] == AndSeparators(t[k..]);
      forall q | 0 <= q < |seps| ensures IsAndSeparator(seps[q]) {
        if q > 0 { assert seps[q] == seps[1..][q - 1]; }
      }
  }

  lemma {:induction false} SkipSpacesPrefix(t: string, n: nat, i: nat)
    requires i <= n <= |t|
    requires SkipSpaces(t[..n], i) < n
    ensures SkipSpaces(t, i) == SkipSpaces(t[..n], i)
    decreases n - i
  {
    assert t[..n][i] == t[i];
    if IsSpace(JsSpace, t[i]) {
      SkipSpacesPrefix(t, n, i + 1);
    }
  }

  /** A separator inside a prefix of `t` is a separator of `t` as well. */
  lemma SeparatorInPrefix(t: string, n: nat, q: nat)
    requires n <= |t|
    requires SeparatorAt(t[..n], q).Some?
    ensures SeparatorAt(t, q).Some?
  {
    var u := t[..n];
    var j := SkipSpaces(u, q);
    assert u[q] == t[q];
    SkipSpacesPrefix(t, n, q);
    assert j + 3 < |u| && SameIgnoringCase(u[j..j + 3], "and") && IsSpace(JsSpace, u[j + 3]);
    var word, uword := t[j..j + 3], u[j..j + 3];
    assert forall i :: 0 <= i < 3 ==> word[i] == uword[i];
    assert u[j + 3] == t[j + 3];
  }

  /** No part contains a separator: every separator was cut at its leftmost position. */
  lemma {:induction false} SplitOnAndPartsFree(t: string)
    ensures forall k, q: nat :: 0 <= k < |SplitOnAnd(t)| ==> SeparatorAt(SplitOnAnd(t)[k], q).None?
    decreases |t|
  {
    var parts := SplitOnAnd(t);
    match FirstSeparator(t, 0)
    case None =>
    case Some((i, k)) =>
      SplitOnAndPartsFree(t[k..]);
      assert parts[1..] == SplitOnAnd(t[k..]);
      forall k', q: nat | 0 <= k' < |parts| ensures SeparatorAt(parts[k'], q).None? {
        if k' == 0 {
          if SeparatorAt(t[..i], q).Some? {
            SeparatorInPrefix(t, i, q);
          }
        } else {
          assert parts[k'] == parts[1..][k' - 1];
        }
      }
  }

  /** `.map(p => p.trim()).filter(Boolean)`. */
  function TrimmedNonEmpty(parts: seq<string>): (r: seq<string>)
    ensures |r| <= |parts|
  {
    if parts == [] then []
    else
      var p := Trim(JsSpace, parts[0]);
      (if p == [] then [] else [p]) + TrimmedNonEmpty(parts[1..])
  }

  /** A single part is kept, trimmed, exactly when it is not blank. */
  lemma TrimmedNonEmptySingle(p: string)
    ensures TrimmedNonEmpty([p]) == if AllSpace(JsSpace, p) then [] else [Trim(JsSpace, p)]
  {
    assert [p][1..] == [];
  }

  /** Parts are trimmed and dropped one by one, so the kept parts keep their order. */
  lemma {:induction false} TrimmedNonEmptyAppend(a: seq<string>, b: seq<string>)
    ensures TrimmedNonEmpty(a + b) == TrimmedNonEmpty(a) + TrimmedNonEmpty(b)
  {
    if a == [] {
      assert a + b == b;
    } else {
      var p := Trim(JsSpace, a[0]);
      var head: seq<string> := if p == [] then [] else [p];
      assert (a + b)[0] == a[0] && (a + b)[1..] == a[1..] + b;
      calc {
        TrimmedNonEmpty(a + b);
        head + TrimmedNonEmpty(a[1..] + b);
        { TrimmedNonEmptyAppend(a[1..], b); }
        head + (TrimmedNonEmpty(a[1..]) + TrimmedNonEmpty(b));
        (head + TrimmedNonEmpty(a[1..])) + TrimmedNonEmpty(b);
        TrimmedNonEmpty(a) + TrimmedNonEmpty(b);
      }
    }
  }

  /** Non-empty, and neither starting nor ending with white space. */
  predicate Tidy(s: string)
  {
    s != [] && !IsSpace(JsSpace, s[0]) && !IsSpace(JsSpace, s[|s| - 1])
  }

  /** Every kept part is non-empty and neither starts nor ends with white space. */
  lemma {:induction false} TrimmedNonEmptyTrimmed(parts: seq<string>)
    ensures forall k :: 0 <= k < |TrimmedNonEmpty(parts)| ==> Tidy(TrimmedNonEmpty(parts)[k])
  {
    if parts != [] {
      TrimmedNonEmptyTrimmed(parts[1..]);
      var p := Trim(JsSpace, parts[0]);
      var head: seq<string> := if p == [] then [] else [p];
      var rest := TrimmedNonEmpty(parts[1..]);
      var r := TrimmedNonEmpty(parts);
      assert r == head + rest;
      forall k | 0 <= k < |r| ensures Tidy(r[k]) {
        if k >= |head| {
          assert r[k] == rest[k - |head|];
        }
      }
    }
  }

  /** Nothing is kept exactly when every part is blank. */
  lemma {:induction false} TrimmedNonEmptyEmptyIff(parts: seq<string>)
    ensures TrimmedNonEmpty(parts) == [] <==> forall k :: 0 <= k < |parts| ==> AllSpace(JsSpace, parts[k])
  {
    if parts != [] {
      TrimmedNonEmptyEmptyIff(parts[1..]);
      var p := Trim(JsSpace, parts[0]);
      var rest := TrimmedNonEmpty(parts[1..]);
      assert TrimmedNonEmpty(parts) == (if p == [] then [] else [p]) + rest;
      assert forall k :: 1 <= k < |parts| ==> parts[k] == parts[1..][k - 1];
    }
  }

  /** Every kept part is made of the characters of some part. */
  lemma {:induction false} TrimmedNonEmptyFrom(parts: seq<string>)
    ensures forall k :: 0 <= k < |TrimmedNonEmpty(parts)| ==>
      exists q :: 0 <= q < |parts| && CharsFrom(TrimmedNonEmpty(parts)[k], parts[q])
  {
    if parts != [] {
      TrimmedNonEmptyFrom(parts[1..]);
      var p := Trim(JsSpace, parts[0]);
      var head: seq<string> := if p == [] then [] else [p];
      var rest := TrimmedNonEmpty(parts[1..]);
      var r := TrimmedNonEmpty(parts);
      assert r == head + rest;
      forall k | 0 <= k < |r| ensures exists q :: 0 <= q < |parts| && CharsFrom(r[k], parts[q]) {
        if k < |head| {
          assert r[k] == p && CharsFrom(p, parts[0]);
        } else {
          assert r[k] == rest[k - |head|];
          var q :| 0 <= q < |parts[1..]| && CharsFrom(rest[k - |head|], parts[1..][q]);
          assert parts[1..][q] == parts[q + 1];
          assert CharsFrom(r[k], parts[q + 1]);
        }
      }
      assert forall k :: 0 <= k < |TrimmedNonEmpty(parts)| ==>
        exists q :: 0 <= q < |parts| && CharsFrom(TrimmedNonEmpty(parts)[k], parts[q]);
    } else {
      assert TrimmedNonEmpty(parts) == [];
    }
  }

  /** The segments `formatAuthors` highlights: at most one per part of the split, each non-empty and trimmed. */
  function AuthorSegments(authorStr: string): (r: seq<string>)
    ensures |r| <= |SplitOnAnd(authorStr)|
    ensures forall k :: 0 <= k < |r| ==> Tidy(r[k])
  {
    TrimmedNonEmptyTrimmed(SplitOnAnd(authorStr));
    TrimmedNonEmpty(SplitOnAnd(authorStr))
  }

  /** `parts.map(highlightMyName)`. */
  function HighlightEach(parts: seq<string>): (r: seq<string>)
    ensures |r| == |parts|
    ensures forall i :: 0 <= i < |parts| ==> r[i] == Highlighted(parts[i])
  {
    seq(|parts|, i requires 0 <= i < |parts| => Highlighted(parts[i]))
  }

  /** What `formatAuthors(authorStr)` returns; an absent author string is "". */
  function FormatAuthors(authorStr: string): (r: string)
    ensures authorStr == "" ==> r == ""
    ensures r == "" <==> forall k :: 0 <= k < |SplitOnAnd(authorStr)| ==> AllSpace(JsSpace, SplitOnAnd(authorStr)[k])
  {
    if authorStr == "" then ""
    else
      var parts := AuthorSegments(authorStr);
      TrimmedNonEmptyEmptyIff(SplitOnAnd(authorStr));
      if |parts| == 0 then ""
      else
        Join(HighlightEach(parts), ", ")
  }

  lemma {:induction false} RemoveTagsJoinHighlighted(parts: seq<string>)
    requires forall k :: 0 <= k < |parts| ==> '<' !in parts[k]
    ensures RemoveStrongTags(Join(HighlightEach(parts), ", ")) == Join(parts, ", ")
  {
    if |parts| == 1 {
      RemoveTagsHighlighted(parts[0]);
    } else if |parts| > 1 {
      var h := HighlightEach(parts);
      assert h[1..] == HighlightEach(parts[1..]);
      RemoveTagsJoinHighlighted(parts[1..]);
      var j := Join(h[1..], ", ");
      assert Join(h, ", ") == h[0] + (", " + j);
      RemoveTagsAppend(h[0], ", " + j);
      RemoveTagsHighlighted(parts[0]);
      RemoveTagsPlainPrefix(", ", j);
    }
  }

  /**
   * For an author string without markup, taking the `<strong>` tags out of the
   * result leaves exactly the trimmed, non-empty names joined by ", ".
   */
  lemma FormatAuthorsPlain(authorStr: string)
    requires '<' !in authorStr
    ensures RemoveStrongTags(FormatAuthors(authorStr)) == Join(AuthorSegments(authorStr), ", ")
  {
    var parts := AuthorSegments(authorStr);
    if authorStr != "" && |parts| > 0 {
      TrimmedNonEmptyFrom(SplitOnAnd(authorStr));
      forall k | 0 <= k < |parts| ensures '<' !in parts[k] {
        var q :| 0 <= q < |SplitOnAnd(authorStr)| && CharsFrom(parts[k], SplitOnAnd(authorStr)[q]);
      }
      RemoveTagsJoinHighlighted(parts);
    } else if authorStr != "" {
      assert RemoveStrongTags("") == "";
    }
  }
}
