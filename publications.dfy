/**
 * The publications section of the homepage: the title-to-figure table, the
 * newest-first ordering of publications.json, and the card built for each
 * entry (meta line, optional figure, link chips and the card's primary link).
 */
module Publications {
  import opened Wrappers
  import opened Text
  import opened Records
  import opened Picks
  import Numbers
  import Authors
  import opened Seqs

  // ---------------------------------------------------------------------
  // Figure lookup
  // ---------------------------------------------------------------------

  /** Lower-cased, trimmed titles mapped to figure paths. */
  const PubImages: map<string, string> := map[
    "automated detection of visual attribute reliance with a self-reflective agent"
      := "assets/papers/saia.png",
    "experimenting with affective computing models in video interviews with spanish-speaking older adults"
      := "assets/papers/elder.png",
    "openmaia: a multimodal automated interpretability agent based on open-source models"
      := "assets/papers/openmaia.png"
  ]

  /** The key a title is looked up under: lower-cased, then trimmed of JavaScript white space. */
  function TitleKey(title: string): (r: string)
    ensures r == [] || (!IsSpace(JsSpace, r[0]) && !IsSpace(JsSpace, r[|r| - 1]))
    ensures forall c :: c in r ==> !IsUpper(c)
  {
    Trim(JsSpace, LowerStr(title))
  }

  /** The figure for a title, looked up among the table's own entries; "" when there is none. */
  function GetPubImage(title: string): (r: string)
    ensures r != "" <==> TitleKey(title) in PubImages
    ensures r != "" ==> r == PubImages[TitleKey(title)]
  {
    if title == "" then ""
    else
      var key := TitleKey(title);
      if key in PubImages then PubImages[key] else ""
  }

  /** Titles that differ only in letter case or surrounding white space get the same figure. */
  lemma GetPubImageIgnoresCaseAndPadding(w1: string, title: string, w2: string)
    requires AllSpace(JsSpace, w1) && AllSpace(JsSpace, w2)
    ensures TitleKey(w1 + title + w2) == TitleKey(title)
    ensures GetPubImage(w1 + title + w2) == GetPubImage(title)
    ensures GetPubImage(LowerStr(title)) == GetPubImage(title)
  {
    LowerStrAppend(w1 + title, w2);
    LowerStrAppend(w1, title);
    LowerStrKeepsSpace(JsSpace, w1);
    LowerStrKeepsSpace(JsSpace, w2);
    TrimPadded(JsSpace, w1, LowerStr(title), w2);
    LowerStrIdempotent(title);
  }

  /** Every figure shown is one of the table's paths. */
  lemma GetPubImageFromTable(title: string)
    ensures GetPubImage(title) == "" || GetPubImage(title) in PubImages.Values
  {
  }

  /**
   * The names a plain JavaScript object literal inherits from `Object.prototype`
   * that a lower-cased key can reach (`toString`, `valueOf` and the other
   * camel-case members cannot).
   */
  const InheritedLowerCaseNames: set<string> := {"constructor", "__proto__"}

  /** What `PUB_IMAGES[key] || ""` yields in JavaScript. */
  datatype ImageValue = Path(path: string) | InheritedMember(name: string)

  /**
   * The lookup as the page writes it: an ordinary property read, which falls
   * through to `Object.prototype` for a key the table does not own, and whose
   * (truthy) inherited value is then used as the figure's `src`.
   */
  function GetPubImageAsWritten(title: string): (r: ImageValue)
    ensures r.InheritedMember? ==> TitleKey(title) !in PubImages
  {
    if title == "" then Path("")
    else
      var key := TitleKey(title);
      if key in PubImages then Path(PubImages[key])
      else if key in InheritedLowerCaseNames then InheritedMember(key)
      else Path("")
  }

  /**
   * A publication titled "constructor" gets a figure under the page's lookup
   * (the source text of the `Object` constructor as its `src`), although the
   * table has no entry for it; the own-entry lookup gives it none.
   */
  lemma InheritedKeyShowsFigure()
    ensures GetPubImageAsWritten("constructor") == InheritedMember("constructor")
    ensures GetPubImage("constructor") == ""
  {
    var t := "constructor";
    assert LowerStr(t) == t;
    assert t[0] == 'c' && t[|t| - 1] == 'r';
    TrimUnpadded(JsSpace, t);
  }

  /** Away from inherited names the two lookups agree. */
  lemma GetPubImageAgreesAwayFromInherited(title: string)
    requires TitleKey(title) !in InheritedLowerCaseNames
    ensures GetPubImageAsWritten(title) == Path(GetPubImage(title))
  {
  }

  // ---------------------------------------------------------------------
  // Newest-first ordering
  // ---------------------------------------------------------------------

  /** The sort key: the year, with a missing year counting as 0. */
  function YearKey(p: Publication): int {
    match p.year
    case Some(y) => y
    case None => 0
  }

  ghost predicate SortedByYear(s: seq<Publication>) {
    forall i, j :: 0 <= i < j < |s| ==> YearKey(s[i]) >= YearKey(s[j])
  }

  /** The entries whose key is `y`, in their order in `s`. */
  function WithYear(s: seq<Publication>, y: int): seq<Publication> {
    if s == [] then []
    else (if YearKey(s[0]) == y then [s[0]] else []) + WithYear(s[1..], y)
  }

  lemma {:induction false} WithYearAppend(a: seq<Publication>, b: seq<Publication>, y: int)
    ensures WithYear(a + b, y) == WithYear(a, y) + WithYear(b, y)
  {
    if a != [] {
      assert (a + b)[1..] == a[1..] + b;
      WithYearAppend(a[1..], b, y);
    } else {
      assert a + b == b;
    }
  }

  /** An entry with key `y` whenever the entries with key `y` are not empty. */
  lemma {:induction false} WithYearWitness(s: seq<Publication>, y: int)
    requires WithYear(s, y) != []
    ensures exists i :: 0 <= i < |s| && YearKey(s[i]) == y
  {
    if YearKey(s[0]) != y {
      WithYearWitness(s[1..], y);
      var i :| 0 <= i < |s[1..]| && YearKey(s[1..][i]) == y;
      assert YearKey(s[i + 1]) == y;
    }
  }

  /** A list is empty exactly when no year has entries in it. */
  lemma EmptyIffNoYears(s: seq<Publication>)
    ensures s == [] <==> forall y :: WithYear(s, y) == []
  {
    if s != [] {
      assert WithYear(s, YearKey(s[0])) != [];
    }
  }

  /** In a newest-first list, the first entry's key bounds every key present. */
  lemma FirstKeyIsLargest(s: seq<Publication>, y: int)
    requires SortedByYear(s) && WithYear(s, y) != []
    ensures YearKey(s[0]) >= y
  {
    WithYearWitness(s, y);
  }

  /**
   * Two newest-first lists that agree, year by year, on which entries carry
   * that year and in what order are the same list.
   */
  lemma {:induction false} SortedUnique(a: seq<Publication>, b: seq<Publication>)
    requires SortedByYear(a) && SortedByYear(b)
    requires forall y :: WithYear(a, y) == WithYear(b, y)
    ensures a == b
  {
    EmptyIffNoYears(a);
    EmptyIffNoYears(b);
    if a == [] {
      assert b == [];
    } else {
      HeadsAgree(a, b);
      TailsAgree(a, b);
      SortedUnique(a[1..], b[1..]);
      assert a == [a[0]] + a[1..];
      assert b == [b[0]] + b[1..];
    }
  }

  /** Two such lists start with the same entry: the first entry of the largest key present. */
  lemma HeadsAgree(a: seq<Publication>, b: seq<Publication>)
    requires a != [] && b != [] && SortedByYear(a) && SortedByYear(b)
    requires forall y :: WithYear(a, y) == WithYear(b, y)
    ensures a[0] == b[0]
  {
    var ka, kb := YearKey(a[0]), YearKey(b[0]);
    assert WithYear(a, ka)[0] == a[0];
    assert WithYear(b, kb)[0] == b[0];
    FirstKeyIsLargest(b, ka);
    FirstKeyIsLargest(a, kb);
    assert WithYear(b, ka)[0] == b[0];
  }

  /** Dropping the same first entry from both lists keeps every year's entries equal. */
  lemma TailsAgree(a: seq<Publication>, b: seq<Publication>)
    requires a != [] && b != [] && a[0] == b[0]
    requires forall y :: WithYear(a, y) == WithYear(b, y)
    ensures forall y :: WithYear(a[1..], y) == WithYear(b[1..], y)
  {
    forall y ensures WithYear(a[1..], y) == WithYear(b[1..], y) {
      var p := if YearKey(a[0]) == y then [a[0]] else [];
      assert WithYear(a, y) == p + WithYear(a[1..], y);
      assert WithYear(b, y) == p + WithYear(b[1..], y);
      assert WithYear(a[1..], y) == WithYear(a, y)[|p|..];
      assert WithYear(b[1..], y) == WithYear(b, y)[|p|..];
    }
  }

  /** Places `x` before the first entry whose key is not greater than its own. */
  function InsertByYear(x: Publication, s: seq<Publication>): (r: seq<Publication>)
    ensures |r| == |s| + 1
  {
    if s == [] || YearKey(x) >= YearKey(s[0]) then [x] + s
    else [s[0]] + InsertByYear(x, s[1..])
  }

  ghost predicate KeysAtMost(s: seq<Publication>, bound: int) {
    forall i :: 0 <= i < |s| ==> YearKey(s[i]) <= bound
  }

  lemma {:induction false} InsertKeysAtMost(x: Publication, s: seq<Publication>, bound: int)
    requires KeysAtMost(s, bound) && YearKey(x) <= bound
    ensures KeysAtMost(InsertByYear(x, s), bound)
  {
    if s != [] && YearKey(x) < YearKey(s[0]) {
      InsertKeysAtMost(x, s[1..], bound);
    }
  }

  lemma {:induction false} InsertSorted(x: Publication, s: seq<Publication>)
    requires SortedByYear(s)
    ensures SortedByYear(InsertByYear(x, s))
  {
    if s != [] && YearKey(x) < YearKey(s[0]) {
      var t := InsertByYear(x, s[1..]);
      InsertSorted(x, s[1..]);
      InsertKeysAtMost(x, s[1..], YearKey(s[0]));
      var r := [s[0]] + t;
      forall i, j | 0 <= i < j < |r| ensures YearKey(r[i]) >= YearKey(r[j]) {
        if i > 0 { assert r[i] == t[i - 1]; }
        assert r[j] == t[j - 1];
      }
    }
  }

  lemma {:induction false} InsertPermutes(x: Publication, s: seq<Publication>)
    ensures multiset(InsertByYear(x, s)) == multiset(s) + multiset{x}
  {
    if s != [] && YearKey(x) < YearKey(s[0]) {
      InsertPermutes(x, s[1..]);
      assert s == [s[0]] + s[1..];
    }
  }

  lemma {:induction false} InsertKeepsYearOrder(x: Publication, s: seq<Publication>, y: int)
    ensures WithYear(InsertByYear(x, s), y) == WithYear([x] + s, y)
  {
    if s != [] && YearKey(x) < YearKey(s[0]) {
      var t := InsertByYear(x, s[1..]);
      InsertKeepsYearOrder(x, s[1..], y);
      WithYearAppend([s[0]], t, y);
      WithYearAppend([x], s, y);
      WithYearAppend([s[0]], s[1..], y);
      WithYearAppend([x], s[1..], y);
      assert s == [s[0]] + s[1..];
      assert WithYear([x], y) == [] || WithYear([s[0]], y) == [];
    }
  }

  /**
   * The order `pubs.sort` leaves, as a functional insertion sort: each entry
   * is inserted in front of the first entry whose key is not greater.
   */
  function SortByYear(s: seq<Publication>): (r: seq<Publication>)
    ensures |r| == |s|
  {
    if s == [] then [] else InsertByYear(s[0], SortByYear(s[1..]))
  }

  /** The sorted list is newest first. */
  lemma {:induction false} SortByYearSorted(s: seq<Publication>)
    ensures SortedByYear(SortByYear(s))
  {
    if s != [] {
      SortByYearSorted(s[1..]);
      InsertSorted(s[0], SortByYear(s[1..]));
    }
  }

  /** The sorted list holds the same entries, each as often. */
  lemma {:induction false} SortByYearPermutes(s: seq<Publication>)
    ensures multiset(SortByYear(s)) == multiset(s)
  {
    if s != [] {
      SortByYearPermutes(s[1..]);
      InsertPermutes(s[0], SortByYear(s[1..]));
      assert s == [s[0]] + s[1..];
    }
  }

  /** The sort is stable: entries with equal keys keep their input order. */
  lemma {:induction false} SortByYearStable(s: seq<Publication>, y: int)
    ensures WithYear(SortByYear(s), y) == WithYear(s, y)
  {
    if s != [] {
      var t := SortByYear(s[1..]);
      SortByYearStable(s[1..], y);
      InsertKeepsYearOrder(s[0], t, y);
      WithYearAppend([s[0]], t, y);
      WithYearAppend([s[0]], s[1..], y);
      assert s == [s[0]] + s[1..];
    }
  }

  /** Any newest-first arrangement that keeps equal-key entries in input order is `SortByYear`. */
  lemma SortByYearCharacterized(s: seq<Publication>, r: seq<Publication>)
    requires SortedByYear(r)
    requires forall y :: WithYear(r, y) == WithYear(s, y)
    ensures r == SortByYear(s)
  {
    SortByYearSorted(s);
    forall y ensures WithYear(SortByYear(s), y) == WithYear(s, y) {
      SortByYearStable(s, y);
    }
    SortedUnique(r, SortByYear(s));
  }

  /** Years 2021, 2023 and a missing year come out as 2023, 2021, then the missing one. */
  lemma SortByYearExample(p: Publication, q: Publication, m: Publication)
    requires p.year == Some(2021) && q.year == Some(2023) && m.year == None
    ensures SortByYear([p, q, m]) == [q, p, m]
  {
    assert [p, q, m][1..] == [q, m];
    assert [q, m][1..] == [m];
    assert SortByYear([m]) == [m];
    assert SortByYear([q, m]) == [q, m];
    assert InsertByYear(p, [q, m]) == [q] + InsertByYear(p, [m]);
  }

  /** Two neighbours with different keys can be exchanged without changing any year's entries. */
  lemma WithYearPair(u: Publication, v: Publication, y: int)
    requires YearKey(u) != YearKey(v)
    ensures WithYear([u, v], y) == WithYear([v, u], y)
  {
    WithYearAppend([u], [v], y);
    WithYearAppend([v], [u], y);
    assert [u] + [v] == [u, v];
    assert [v] + [u] == [v, u];
  }

  /** Exchanging two neighbours with different keys keeps every year's entries in order. */
  lemma SwapKeepsYearOrder(s: seq<Publication>, j: int, y: int)
    requires 0 < j < |s| && YearKey(s[j - 1]) != YearKey(s[j])
    ensures WithYear(s[j - 1 := s[j]][j := s[j - 1]], y) == WithYear(s, y)
  {
    var pre, post := s[..j - 1], s[j + 1..];
    var u, v := s[j - 1], s[j];
    assert s == pre + [u, v] + post;
    assert s[j - 1 := v][j := u] == pre + [v, u] + post;
    WithYearAppend(pre + [u, v], post, y);
    WithYearAppend(pre, [u, v], y);
    WithYearAppend(pre + [v, u], post, y);
    WithYearAppend(pre, [v, u], y);
    WithYearPair(u, v, y);
  }

  /**
   * The state of one insertion step: the entry being moved sits at `j`, the
   * other entries up to `i` are newest first, and every entry after `j` has a
   * smaller key than it.
   */
  ghost predicate Sinking(s: seq<Publication>, i: int, j: int) {
    && 0 <= j <= i < |s|
    && (forall p, q :: 0 <= p < q <= i && p != j && q != j ==> YearKey(s[p]) >= YearKey(s[q]))
    && (forall q :: j < q <= i ==> YearKey(s[j]) > YearKey(s[q]))
  }

  /** Moving the entry one place left, past a smaller key, keeps the step's state and every year's entries. */
  lemma SinkStep(s: seq<Publication>, i: int, j: int)
    requires Sinking(s, i, j) && 0 < j && YearKey(s[j - 1]) < YearKey(s[j])
    ensures Sinking(s[j - 1 := s[j]][j := s[j - 1]], i, j - 1)
    ensures forall y :: WithYear(s[j - 1 := s[j]][j := s[j - 1]], y) == WithYear(s, y)
  {
    forall y ensures WithYear(s[j - 1 := s[j]][j := s[j - 1]], y) == WithYear(s, y) {
      SwapKeepsYearOrder(s, j, y);
    }
  }

  /** Once the entry meets a key that is not smaller, the prefix up to `i` is newest first. */
  lemma SinkDone(s: seq<Publication>, i: int, j: int)
    requires Sinking(s, i, j) && (j == 0 || YearKey(s[j - 1]) >= YearKey(s[j]))
    ensures forall p, q :: 0 <= p < q <= i ==> YearKey(s[p]) >= YearKey(s[q])
  {
    forall p, q | 0 <= p < q <= i ensures YearKey(s[p]) >= YearKey(s[q]) {
      if p == j || q == j {
        if q == j && p < j - 1 {
          assert YearKey(s[p]) >= YearKey(s[j - 1]);
        }
      }
    }
  }

  /**
   * Moves `a[i]` left past the entries with a strictly smaller key, so that
   * `a[..i + 1]` is newest first when `a[..i]` was.
   */
  method InsertIntoSorted(a: array<Publication>, i: int)
    requires 0 <= i < a.Length
    requires forall p, q :: 0 <= p < q < i ==> YearKey(a[p]) >= YearKey(a[q])
    modifies a
    ensures forall p, q :: 0 <= p < q <= i ==> YearKey(a[p]) >= YearKey(a[q])
    ensures forall y :: WithYear(a[..], y) == WithYear(old(a[..]), y)
    ensures a[i + 1..] == old(a[i + 1..])
  {
    var j := i;
    while j > 0 && YearKey(a[j - 1]) < YearKey(a[j])
      invariant Sinking(a[..], i, j)
      invariant forall y :: WithYear(a[..], y) == WithYear(old(a[..]), y)
      invariant a[i + 1..] == old(a[i + 1..])
    {
      ghost var before := a[..];
      SinkStep(before, i, j);
      a[j - 1], a[j] := a[j], a[j - 1];
      assert a[..] == before[j - 1 := before[j]][j := before[j - 1]];
      j := j - 1;
    }
    SinkDone(a[..], i, j);
  }

  /** Sorts the fetched array in place, newest first and stably, by insertion. */
  method SortPublications(a: array<Publication>)
    modifies a
    ensures a[..] == SortByYear(old(a[..]))
  {
    for i := 0 to a.Length
      invariant forall p, q :: 0 <= p < q < i ==> YearKey(a[p]) >= YearKey(a[q])
      invariant forall y :: WithYear(a[..], y) == WithYear(old(a[..]), y)
    {
      InsertIntoSorted(a, i);
    }
    SortByYearCharacterized(old(a[..]), a[..]);
  }

  // ---------------------------------------------------------------------
  // Cards
  // ---------------------------------------------------------------------

  /** A link chip: its caption and the URL it opens. */
  type Chip = Link

  /** The figure under a card's title. */
  datatype Figure = Figure(src: string, alt: string)

  /**
   * One publication card. The chip row is shown when `chips` is not empty,
   * and the card is clickable when `primaryUrl` is not "".
   */
  datatype Card = Card(title: string, meta: string, figure: Option<Figure>, chips: seq<Chip>, primaryUrl: string)

  /** The position of a chip caption in the fixed chip order. */
  function CaptionRank(caption: string): int {
    if caption == "PDF" then 0
    else if caption == "Code" then 1
    else if caption == "DOI" then 2
    else if caption == "Scholar" then 3
    else 4
  }

  /** The four candidate chips, in the order the page adds them; each needs a non-empty URL. */
  function ChipSlots(links: Links): (r: seq<Candidate>)
    ensures DistinctCaptions(r)
    ensures forall k :: 0 <= k < |r| ==> r[k].field == r[k].link.url && CaptionRank(r[k].link.caption) == k
  {
    [Candidate(links.pdf, Link("PDF", links.pdf)), Candidate(links.code, Link("Code", links.code)),
     Candidate(links.doi, Link("DOI", links.doi)), Candidate(links.scholar, Link("Scholar", links.scholar))]
  }

  /** The chips of a card: PDF, Code, DOI, Scholar, each present exactly when its link is. */
  function ChipsOf(links: Links): (r: seq<Chip>)
    ensures Link("PDF", links.pdf) in r <==> links.pdf != ""
    ensures Link("Code", links.code) in r <==> links.code != ""
    ensures Link("DOI", links.doi) in r <==> links.doi != ""
    ensures Link("Scholar", links.scholar) in r <==> links.scholar != ""
    ensures forall c :: c in r ==> c.url != ""
  {
    var slots := ChipSlots(links);
    PresentExactly(slots, 0);
    PresentExactly(slots, 1);
    PresentExactly(slots, 2);
    PresentExactly(slots, 3);
    var r := Present(slots);
    assert forall c :: c in r ==> c.url != "" by {
      forall c | c in r ensures c.url != "" {
        PresentFromTruthy(slots, c);
      }
    }
    r
  }

  /** The chips appear in the fixed order PDF, Code, DOI, Scholar. */
  lemma ChipsInOrder(links: Links, i: int, j: int)
    requires 0 <= i < j < |ChipsOf(links)|
    ensures CaptionRank(ChipsOf(links)[i].caption) < CaptionRank(ChipsOf(links)[j].caption)
  {
    PresentInOrder(ChipSlots(links), i, j);
  }

  /** The URL the whole card opens: the PDF, else the DOI, else the Scholar page, else the code. */
  function PrimaryUrl(links: Links): (r: string)
    ensures r == "" <==> links.pdf == "" && links.doi == "" && links.scholar == "" && links.code == ""
    ensures r in {links.pdf, links.doi, links.scholar, links.code}
  {
    if links.pdf != "" then links.pdf
    else if links.doi != "" then links.doi
    else if links.scholar != "" then links.scholar
    else links.code
  }

  /** The primary URL is the first non-empty one of PDF, DOI, Scholar page and code. */
  lemma PrimaryUrlPrecedence(links: Links)
    ensures PrimaryUrl(links) == FirstNonEmpty([links.pdf, links.doi, links.scholar, links.code])
  {
    var xs := [links.pdf, links.doi, links.scholar, links.code];
    assert xs[1..] == [links.doi, links.scholar, links.code];
    assert xs[1..][1..] == [links.scholar, links.code];
    assert xs[1..][1..][1..] == [links.code];
    assert xs[1..][1..][1..][1..] == [];
    assert FirstNonEmpty(xs[1..][1..][1..]) == links.code;
    assert FirstNonEmpty(xs[1..][1..]) == if links.scholar != "" then links.scholar else links.code;
    assert FirstNonEmpty(xs[1..]) == PrimaryUrl(links.(pdf := ""));
  }

  /** A card is clickable exactly when it shows a chip, and it then opens one of its chips' URLs. */
  lemma PrimaryUrlIsAChip(links: Links)
    ensures PrimaryUrl(links) == "" <==> ChipsOf(links) == []
    ensures PrimaryUrl(links) != "" ==> exists c :: c in ChipsOf(links) && c.url == PrimaryUrl(links)
  {
    var r := PrimaryUrl(links);
    if r != "" {
      if links.pdf != "" { assert Link("PDF", links.pdf) in ChipsOf(links); }
      else if links.doi != "" { assert Link("DOI", links.doi) in ChipsOf(links); }
      else if links.scholar != "" { assert Link("Scholar", links.scholar) in ChipsOf(links); }
      else { assert Link("Code", links.code) in ChipsOf(links); }
    }
    if ChipsOf(links) != [] {
      assert ChipsOf(links)[0] in ChipsOf(links);
      PresentFromTruthy(ChipSlots(links), ChipsOf(links)[0]);
    }
  }

  /** What a click on the card opens: the primary URL, unless the click landed inside a link. */
  function CardClick(card: Card, insideLink: bool): (r: Option<string>)
    ensures r.Some? <==> card.primaryUrl != "" && !insideLink
    ensures r.Some? ==> r.value == card.primaryUrl
  {
    if card.primaryUrl == "" || insideLink then None else Some(card.primaryUrl)
  }

  /** The year is shown when present and not 0 (JavaScript truthiness). */
  predicate YearShown(pub: Publication) {
    pub.year.Some? && pub.year.value != 0
  }

  /** The meta pieces: formatted authors, venue, year, each only when present. */
  function MetaPieces(pub: Publication): (r: seq<string>)
    ensures |r| == (if pub.authors != "" then 1 else 0) + (if pub.venue != "" then 1 else 0)
                   + (if YearShown(pub) then 1 else 0)
    ensures pub.authors != "" ==> r[0] == Authors.FormatAuthors(pub.authors)
    ensures pub.venue != "" ==> r[if pub.authors != "" then 1 else 0] == pub.venue
    ensures YearShown(pub) ==> r[|r| - 1] == Numbers.ShowInt(pub.year.value)
  {
    (if pub.authors != "" then [Authors.FormatAuthors(pub.authors)] else [])
      + (if pub.venue != "" then [pub.venue] else [])
      + (if YearShown(pub) then [Numbers.ShowInt(pub.year.value)] else [])
  }

  const MetaSeparator := " · "

  /**
   * The meta line: the pieces joined by a middle dot. It is blank exactly when
   * there is nothing to show: no formatted authors, no venue and no year.
   */
  function MetaLine(pub: Publication): (r: string)
    ensures r == "" <==> (pub.authors == "" || Authors.FormatAuthors(pub.authors) == "") && pub.venue == "" && !YearShown(pub)
  {
    Join(MetaPieces(pub), MetaSeparator)
  }

  /** Pushes the meta pieces one by one and joins them. */
  method BuildMeta(pub: Publication) returns (meta: string)
    ensures meta == MetaLine(pub)
  {
    var pieces: seq<string> := [];
    if pub.authors != "" {
      var formatted := Authors.FormatAuthors(pub.authors);
      pieces := pieces + [formatted];
    }
    ghost var withAuthors := pieces;
    if pub.venue != "" {
      pieces := pieces + [pub.venue];
    }
    ghost var withVenue := pieces;
    if YearShown(pub) {
      pieces := pieces + [Numbers.ShowInt(pub.year.value)];
    }
    assert withVenue == withAuthors + (if pub.venue != "" then [pub.venue] else []);
    assert withAuthors == if pub.authors != "" then [Authors.FormatAuthors(pub.authors)] else [];
    assert pieces == withVenue + (if YearShown(pub) then [Numbers.ShowInt(pub.year.value)] else []);
    assert pieces == MetaPieces(pub);
    meta := Join(pieces, MetaSeparator);
  }

  /**
   * When the year is shown, the meta line ends with its decimal text (after
   * the separator when other pieces precede it), and that text reads back as the year.
   */
  lemma MetaEndsWithYear(pub: Publication)
    requires YearShown(pub)
    ensures var t := Numbers.ShowInt(pub.year.value);
            |t| <= |MetaLine(pub)| && MetaLine(pub)[|MetaLine(pub)| - |t|..] == t
            && Numbers.ParseInt(t) == Some(pub.year.value)
  {
    var r := MetaPieces(pub);
    var t := Numbers.ShowInt(pub.year.value);
    assert r == r[..|r| - 1] + [t];
    JoinSnoc(r[..|r| - 1], t, MetaSeparator);
    Numbers.ParseShowInt(pub.year.value);
  }

  /**
   * The card for one publication. It has a figure exactly when its title is in
   * the figure table, and the figure's alternative text is then the title
   * itself (a table title is never empty, so the fallback text is never used).
   */
  function CardOf(pub: Publication): (c: Card)
    ensures c.title == pub.title
    ensures c.figure.Some? <==> TitleKey(pub.title) in PubImages
    ensures c.figure.Some? ==> c.figure.value == Figure(PubImages[TitleKey(pub.title)], pub.title)
  {
    var img := GetPubImage(pub.title);
    var figure := if img != "" then Some(Figure(img, if pub.title != "" then pub.title else "Publication figure")) else None;
    Card(pub.title, MetaLine(pub), figure, ChipsOf(pub.links), PrimaryUrl(pub.links))
  }

  /** A card is clickable exactly when it shows chips, and a click opens one of the chips' URLs. */
  lemma CardShape(pub: Publication)
    ensures CardOf(pub).primaryUrl != "" <==> CardOf(pub).chips != []
    ensures CardOf(pub).primaryUrl != "" ==> exists c :: c in CardOf(pub).chips && c.url == CardOf(pub).primaryUrl
  {
    PrimaryUrlIsAChip(pub.links);
  }

  /** Builds one card the way the page does, piece by piece. */
  method BuildCard(pub: Publication) returns (card: Card)
    ensures card == CardOf(pub)
  {
    var meta := BuildMeta(pub);
    var img := GetPubImage(pub.title);
    var figure: Option<Figure> := None;
    if img != "" {
      figure := Some(Figure(img, if pub.title != "" then pub.title else "Publication figure"));
    }
    var chips := PushPresent(ChipSlots(pub.links));
    card := Card(pub.title, meta, figure, chips, PrimaryUrl(pub.links));
  }

  /** What the publication list shows. */
  datatype PubList = Placeholder(html: string) | Cards(cards: seq<Card>)

  const NoPublicationsHtml :=
    "<div class=\"text-muted\">No publications loaded. Check <code>publications.json</code>.</div>"

  /** One card per publication, in the list's order. */
  function CardsOf(pubs: seq<Publication>): (r: seq<Card>)
    ensures |r| == |pubs|
    ensures forall k :: 0 <= k < |pubs| ==> r[k] == CardOf(pubs[k])
  {
    Map(CardOf, pubs)
  }

  lemma CardsOfSnoc(s: seq<Publication>, k: int)
    requires 0 <= k < |s|
    ensures CardsOf(s[..k + 1]) == CardsOf(s[..k]) + [CardOf(s[k])]
  {
    assert s[..k + 1] == s[..k] + [s[k]];
    MapSnoc(CardOf, s[..k], s[k]);
  }

  /** Builds the cards for the (sorted) array, front to back. */
  method BuildCards(pubs: array<Publication>) returns (cards: seq<Card>)
    ensures cards == CardsOf(pubs[..])
  {
    cards := [];
    for k := 0 to pubs.Length
      invariant cards == CardsOf(pubs[..k])
    {
      CardsOfSnoc(pubs[..], k);
      var card := BuildCard(pubs[k]);
      cards := cards + [card];
    }
    assert pubs[..pubs.Length] == pubs[..];
  }

  /**
   * Loads the publication list. `fetched` is the parsed publications.json, or
   * `None` when the request or the parse failed. On success the array is sorted
   * in place and one card is built per entry, in the sorted order.
   */
  method LoadPublications(fetched: Option<array<Publication>>) returns (view: PubList)
    modifies if fetched.Some? then {fetched.value} else {}
    ensures fetched.None? ==> view == Placeholder(NoPublicationsHtml)
    ensures fetched.Some? ==> fetched.value[..] == SortByYear(old(fetched.value[..]))
    ensures fetched.Some? ==> view == Cards(CardsOf(fetched.value[..]))
  {
    if fetched.None? {
      return Placeholder(NoPublicationsHtml);
    }
    var pubs := fetched.value;
    SortPublications(pubs);
    var cards := BuildCards(pubs);
    view := Cards(cards);
  }
}
