/**
 * A worked `formatAuthors` call: an author line naming the site owner and one
 * co-author, split on "and", trimmed, highlighted and joined.
 */
module AuthorsExample {
  import opened Wrappers
  import opened Text
  import opened Authors

  const Owner: string := "Josep Lopez Camu\U{F1}as"
  const CoAuthor: string := "Jane Doe"
  const Line: string := "Josep Lopez Camu\U{F1}as and Jane Doe"
  /** `"<strong>Josep Lopez Camuñas</strong>"`. */
  const Wrapped: string := Open + Owner + Close

  /** A separator found at `i`, with none between `from` and `i`, is the first one. */
  lemma FirstSeparatorIs(t: string, from: nat, i: nat)
    requires from <= i && SeparatorAt(t, i).Some?
    requires forall q: nat :: from <= q < i ==> SeparatorAt(t, q).None?
    ensures FirstSeparator(t, from) == Some((i, SeparatorAt(t, i).value))
  {
  }

  predicate Letter(c: char)
  {
    ('A' <= c <= 'Z') || ('a' <= c <= 'z') || c == '\U{F1}'
  }

  lemma LetterNotSpace(c: char)
    requires Letter(c)
    ensures !IsSpace(JsSpace, c)
  {
  }

  lemma LineLetters()
    ensures forall q :: 0 <= q < 19 && q != 5 && q != 11 ==> Letter(Line[q])
    ensures IsSpace(JsSpace, Line[5]) && Line[6] == 'L' && IsSpace(JsSpace, Line[11]) && Line[12] == 'C'
  {
  }

  /** A single space followed by a letter other than `a` starts no separator. */
  lemma SpaceThenOtherLetter(t: string, q: nat)
    requires q + 1 < |t| && IsSpace(JsSpace, t[q]) && Letter(t[q + 1]) && Lower(t[q + 1]) != 'a'
    ensures SeparatorAt(t, q).None?
  {
    LetterNotSpace(t[q + 1]);
    assert SkipSpaces(t, q + 1) == q + 1;
  }

  lemma LineSeparator()
    ensures SeparatorAt(Line, 19) == Some(24)
  {
    var t := Line;
    assert IsSpace(JsSpace, t[19]) && !IsSpace(JsSpace, t[20]);
    assert SkipSpaces(t, 20) == 20;
    assert t[20..23] == "and" && IsSpace(JsSpace, t[23]) && !IsSpace(JsSpace, t[24]);
    assert SkipSpaces(t, 24) == 24;
  }

  lemma LineFirstCut()
    ensures FirstSeparator(Line, 0) == Some((19, 24))
  {
    var t := Line;
    LineLetters();
    SpaceThenOtherLetter(t, 5);
    SpaceThenOtherLetter(t, 11);
    forall q: nat | q < 19 && q != 5 && q != 11 ensures SeparatorAt(t, q).None? {
      LetterNotSpace(t[q]);
    }
    LineSeparator();
    FirstSeparatorIs(t, 0, 19);
  }

  lemma CoAuthorNoCut()
    ensures FirstSeparator(CoAuthor, 0) == None
  {
    var u := CoAuthor;
    assert SkipSpaces(u, 4) == 5;
    forall q: nat ensures SeparatorAt(u, q).None? {
      if q < |u| && IsSpace(JsSpace, u[q]) {
        assert q == 4;
      }
    }
  }

  /** One separator and none after it: two parts. */
  lemma SplitInTwo(t: string, i: nat, k: nat)
    requires FirstSeparator(t, 0) == Some((i, k)) && FirstSeparator(t[k..], 0) == None
    ensures SplitOnAnd(t) == [t[..i], t[k..]]
  {
    SplitOnAndUnfold(t, i, k);
  }

  lemma LineSplit()
    ensures SplitOnAnd(Line) == [Owner, CoAuthor]
  {
    LineFirstCut();
    assert Line[24..] == CoAuthor && Line[..19] == Owner;
    CoAuthorNoCut();
    SplitInTwo(Line, 19, 24);
  }

  /** Two parts with nothing to trim are both kept as they are. */
  lemma TwoTidyParts(a: string, b: string)
    requires Tidy(a) && Tidy(b)
    ensures TrimmedNonEmpty([a, b]) == [a, b]
  {
    assert [a, b] == [a] + [b];
    TrimmedNonEmptyAppend([a], [b]);
    TrimmedNonEmptySingle(a);
    TrimmedNonEmptySingle(b);
    TrimUnpadded(JsSpace, a);
    TrimUnpadded(JsSpace, b);
  }

  lemma NamesTidy()
    ensures Tidy(Owner) && Tidy(CoAuthor)
  {
    LetterNotSpace('J');
    LetterNotSpace('s');
    LetterNotSpace('e');
  }

  lemma LineSegments()
    ensures AuthorSegments(Line) == [Owner, CoAuthor]
  {
    LineSplit();
    NamesTidy();
    TwoTidyParts(Owner, CoAuthor);
  }

  /** The co-author's name is shorter than every variant, so nothing is wrapped. */
  lemma CoAuthorUnchanged()
    ensures Highlighted(CoAuthor) == CoAuthor
  {
    forall k | 0 <= k < |MyAuthorNames| ensures !Occurs(CoAuthor, MyAuthorNames[k]) {
      var n := MyAuthorNames[k];
      assert |n| > |CoAuthor|;
      forall p: nat ensures !MatchesAt(CoAuthor, p, n) {
      }
    }
    HighlightedUnchangedIff(CoAuthor);
  }

  /** A text that is exactly the name is wrapped whole. */
  lemma EmphasizeWhole(x: string, n: string)
    requires x == n && n != []
    ensures EmphasizeAll(x, n) == Open + x + Close
  {
    assert MatchesAt(x, 0, n) by {
      assert x[0..|n|] == x;
    }
    EmphasizeAllUnfold(x, n, 0);
    assert x[|n|..] == [] && x[..0] == [] && x[0..|n|] == x;
    assert EmphasizeAll([], n) == [];
  }

  /** The first variant is the owner's name itself, so the whole name is wrapped. */
  lemma OwnerWrappedOnce()
    ensures EmphasizeAll(Owner, MyAuthorNames[0]) == Wrapped
  {
    assert MyAuthorNames[0] == Owner;
    EmphasizeWhole(Owner, MyAuthorNames[0]);
  }

  lemma WrappedLetters()
    ensures |Wrapped| == 36
    ensures forall p :: 0 <= p < 36 && p != 8 ==> Wrapped[p] != 'J' && Wrapped[p] != 'j'
    ensures Wrapped[15] == 'o' && Wrapped[24] == '\U{F1}'
  {
  }

  lemma VariantLetters()
    ensures forall k :: 0 <= k < |MyAuthorNames| ==> |MyAuthorNames[k]| == 19 && MyAuthorNames[k][0] == 'J'
    ensures MyAuthorNames[1][7] == '\U{F3}' && MyAuthorNames[2][16] == 'n' && MyAuthorNames[3][7] == '\U{F3}'
  {
  }

  /** A 19-letter name starting with `J` can only match where the wrapped name starts. */
  lemma OnlyMatchAtName(n: string)
    requires |n| == 19 && n[0] == 'J'
    ensures forall p: nat :: MatchesAt(Wrapped, p, n) ==> p == 8
  {
    WrappedLetters();
    forall p: nat | MatchesAt(Wrapped, p, n) ensures p == 8 {
      assert Wrapped[p..p + |n|][0] == Wrapped[p];
      assert Lower(Wrapped[p]) == Lower('J');
    }
  }

  /** A name that differs from the wrapped name at one letter, ignoring case, does not match there. */
  lemma NoMatchAtName(n: string, d: nat)
    requires |n| == 19 && d < 19 && Lower(Wrapped[8 + d]) != Lower(n[d])
    ensures !MatchesAt(Wrapped, 8, n)
  {
    WrappedLetters();
    assert Wrapped[8..27][d] == Wrapped[8 + d];
  }

  /** The other variants differ from the wrapped name at an accented letter. */
  lemma WrappedHasNoOtherVariant(k: int)
    requires 1 <= k < |MyAuthorNames|
    ensures !Occurs(Wrapped, MyAuthorNames[k])
  {
    var n := MyAuthorNames[k];
    WrappedLetters();
    VariantLetters();
    OnlyMatchAtName(n);
    var d := if k == 2 then 16 else 7;
    assert Lower(Wrapped[8 + d]) != Lower(n[d]);
    NoMatchAtName(n, d);
  }

  /** Four replaces where only the first changes anything. */
  lemma FoldOfFour(s: string, w: string, names: seq<string>)
    requires |names| == 4 && forall k :: 0 <= k < 4 ==> names[k] != []
    requires EmphasizeAll(s, names[0]) == w
    requires forall k :: 1 <= k < 4 ==> EmphasizeAll(w, names[k]) == w
    ensures HighlightFold(s, names) == w
  {
    assert names[..1][..0] == [] && names[..1][0] == names[0];
    assert HighlightFold(s, names[..1]) == w;
    assert names[..2][..1] == names[..1] && names[..2][1] == names[1];
    assert HighlightFold(s, names[..2]) == w;
    assert names[..3][..2] == names[..2] && names[..3][2] == names[2];
    assert HighlightFold(s, names[..3]) == w;
    assert names[..3] == names[..|names| - 1];
  }

  lemma OwnerHighlighted()
    ensures Highlighted(Owner) == Wrapped
  {
    MyAuthorNamesGood();
    OwnerWrappedOnce();
    forall k | 1 <= k < |MyAuthorNames| ensures EmphasizeAll(Wrapped, MyAuthorNames[k]) == Wrapped {
      WrappedHasNoOtherVariant(k);
    }
    FoldOfFour(Owner, Wrapped, MyAuthorNames);
  }

  /** Two segments are highlighted one by one and joined by ", ". */
  lemma FormatTwoSegments(t: string, a: string, b: string)
    requires t != "" && AuthorSegments(t) == [a, b]
    ensures FormatAuthors(t) == Highlighted(a) + ", " + Highlighted(b)
  {
    var h := HighlightEach([a, b]);
    assert h == [Highlighted(a), Highlighted(b)];
    assert h[1..] == [Highlighted(b)];
  }

  /**
   * `formatAuthors("Josep Lopez Camuñas and Jane Doe")` is
   * `"<strong>Josep Lopez Camuñas</strong>, Jane Doe"`: the owner's segment
   * wrapped, then ", ", then the co-author unchanged.
   */
  lemma FormatAuthorsExample()
    ensures FormatAuthors(Line) == Wrapped + ", " + CoAuthor
  {
    LineSegments();
    FormatTwoSegments(Line, Owner, CoAuthor);
    OwnerHighlighted();
    CoAuthorUnchanged();
  }
}
