/**
 * The scraper that refreshes publications.json from a Google Scholar profile:
 * the blacklist test, the mapping of one filled Scholar record to an output
 * record, and the loop that examines the first `max_papers` references.
 */
module ScholarUpdate {
  import opened Wrappers
  import opened Text
  import opened Records
  import Numbers
  import opened Seqs

  /** The bound the script's `main` passes to `fetch_publications` (`MAX_PAPERS`). */
  const MaxPapers := 40

  /** Lower-case fragments that mark a paper to leave out, matched in title and venue. */
  const SkipPatterns: seq<string> := ["wacvw 2025", "predictive maintenance using deep learning"]

  /** Whether some pattern occurs in `text` (Python `any(p in text for p in pats)`). */
  function AnyOccurs(text: string, pats: seq<string>): (r: bool)
    ensures r <==> exists k :: 0 <= k < |pats| && Contains(text, pats[k])
  {
    if pats == [] then false
    else
      var rest := AnyOccurs(text, pats[1..]);
      assert rest <==> exists k :: 1 <= k < |pats| && Contains(text, pats[k]) by {
        if rest {
          var k :| 0 <= k < |pats[1..]| && Contains(text, pats[1..][k]);
          assert pats[k + 1] == pats[1..][k];
        }
        if exists k :: 1 <= k < |pats| && Contains(text, pats[k]) {
          var k :| 1 <= k < |pats| && Contains(text, pats[k]);
          assert pats[1..][k - 1] == pats[k];
        }
      }
      Contains(text, pats[0]) || rest
  }

  /** The blacklist test: some pattern occurs in the lower-cased "title venue". */
  function ShouldSkipPaper(title: string, venue: string): (r: bool)
    ensures r <==> exists k :: (0 <= k < |SkipPatterns|
      && exists i :: OccursAt(SkipPatterns[k], LowerStr(title + " " + venue), i))
  {
    AnyOccurs(LowerStr(title + " " + venue), SkipPatterns)
  }

  /** The test does not depend on the letter case of the title or the venue. */
  lemma ShouldSkipIgnoresCase(title: string, venue: string)
    ensures ShouldSkipPaper(LowerStr(title), LowerStr(venue)) == ShouldSkipPaper(title, venue)
  {
    LowerStrAppend(title + " ", venue);
    LowerStrAppend(title, " ");
    LowerStrAppend(LowerStr(title) + " ", LowerStr(venue));
    LowerStrAppend(LowerStr(title), " ");
    LowerStrIdempotent(title);
    LowerStrIdempotent(venue);
    assert LowerStr(" ") == " ";
  }

  /** A paper whose venue names the blacklisted workshop, in any letter case, is skipped. */
  lemma WorkshopVenueSkipped(title: string, venue: string)
    requires LowerStr(venue) == "wacvw 2025"
    ensures ShouldSkipPaper(title, venue)
  {
    var text := LowerStr(title + " " + venue);
    LowerStrAppend(title + " ", venue);
    assert text == LowerStr(title + " ") + "wacvw 2025";
    assert OccursAt(SkipPatterns[0], text, |text| - 10);
  }

  /** A filled Scholar record: its `bib` dictionary and its two top-level URLs ("" when absent). */
  datatype ScholarPub = ScholarPub(bib: map<string, string>, eprintUrl: string, pubUrl: string)

  /** `bib.get(key, "")`. */
  function Get(bib: map<string, string>, key: string): (r: string)
    ensures key in bib ==> r == bib[key]
    ensures key !in bib ==> r == ""
  {
    if key in bib then bib[key] else ""
  }

  /** The venue: the bib's venue, else its journal, else its conference, else "". */
  function VenueOf(bib: map<string, string>): (r: string)
    ensures r == "" <==> Get(bib, "venue") == "" && Get(bib, "journal") == "" && Get(bib, "conference") == ""
    ensures r in {Get(bib, "venue"), Get(bib, "journal"), Get(bib, "conference")}
  {
    var v := Get(bib, "venue");
    if v != "" then v
    else
      var j := Get(bib, "journal");
      if j != "" then j else Get(bib, "conference")
  }

  lemma VenueFallback(bib: map<string, string>)
    ensures VenueOf(bib) == FirstNonEmpty([Get(bib, "venue"), Get(bib, "journal"), Get(bib, "conference")])
  {
    var xs := [Get(bib, "venue"), Get(bib, "journal"), Get(bib, "conference")];
    assert xs[1..] == [Get(bib, "journal"), Get(bib, "conference")];
    assert xs[1..][1..] == [Get(bib, "conference")];
    assert xs[1..][1..][1..] == [];
    assert FirstNonEmpty(xs[1..][1..]) == Get(bib, "conference");
  }

  /**
   * The year: the integer read from `pub_year`, or from `year` when `pub_year`
   * is absent or empty; `None` when neither is given or the text is not an integer.
   */
  function YearOf(bib: map<string, string>): (r: Option<int>)
    ensures Get(bib, "pub_year") == "" && Get(bib, "year") == "" ==> r == None
    ensures Get(bib, "pub_year") != "" ==> r == Numbers.ParseInt(Get(bib, "pub_year"))
    ensures Get(bib, "pub_year") == "" ==> r == Numbers.ParseInt(Get(bib, "year"))
  {
    var raw := if Get(bib, "pub_year") != "" then Get(bib, "pub_year") else Get(bib, "year");
    if raw == "" then None else Numbers.ParseInt(raw)
  }

  /** A year written as `pub_year` is read back exactly, whatever `year` says. */
  lemma YearOfPubYear(bib: map<string, string>, n: int)
    requires Get(bib, "pub_year") == Numbers.ShowInt(n)
    ensures YearOf(bib) == Some(n)
  {
    Numbers.ParseShowInt(n);
  }

  /** Without a `pub_year`, a year written as `year` is read back exactly. */
  lemma YearOfFallback(bib: map<string, string>, n: int)
    requires Get(bib, "pub_year") == "" && Get(bib, "year") == Numbers.ShowInt(n)
    ensures YearOf(bib) == Some(n)
  {
    Numbers.ParseShowInt(n);
  }

  /** A `pub_year` that is not an integer gives no year, even when `year` holds one. */
  lemma YearOfMalformedPubYear(bib: map<string, string>)
    requires Get(bib, "pub_year") != "" && Numbers.ParseInt(Get(bib, "pub_year")).None?
    ensures YearOf(bib) == None
  {
  }

  /** For instance "n.d." as `pub_year` gives no year, though `year` holds 2020. */
  lemma YearOfNotADate()
    ensures YearOf(map["pub_year" := "n.d.", "year" := "2020"]) == None
  {
    assert Get(map["pub_year" := "n.d.", "year" := "2020"], "pub_year") == "n.d.";
    assert !Numbers.IsDigit("n.d."[0]);
  }

  const SummaryLength := 350

  /** `abstract[:350]`: the abstract cut to at most 350 characters. */
  function Summary(text: string): (r: string)
    ensures |r| <= SummaryLength && r <= text
    ensures |text| <= SummaryLength ==> r == text
    ensures |text| > SummaryLength ==> |r| == SummaryLength
  {
    if |text| <= SummaryLength then text else text[..SummaryLength]
  }

  /** The output record for one filled Scholar record. */
  function Transform(pub: ScholarPub): (r: Publication)
    ensures r.links.doi == "" && r.links.code == ""
    ensures r.links.pdf == pub.eprintUrl && r.links.scholar == pub.pubUrl
    ensures r.title == Trim(PySpace, Get(pub.bib, "title"))
    ensures r.authors == Get(pub.bib, "author")
    ensures r.venue == VenueOf(pub.bib) && r.year == YearOf(pub.bib)
    ensures r.summary == Summary(Get(pub.bib, "abstract"))
  {
    var bib := pub.bib;
    Publication(
      Trim(PySpace, Get(bib, "title")),
      Get(bib, "author"),
      VenueOf(bib),
      YearOf(bib),
      Summary(Get(bib, "abstract")),
      Links(pub.eprintUrl, "", "", pub.pubUrl))
  }

  /** Whether the record for `pub` is left out by the blacklist. */
  predicate Skipped(pub: ScholarPub) {
    var r := Transform(pub);
    ShouldSkipPaper(r.title, r.venue)
  }

  /** Python's `refs[:m]`: the first `m` entries, or all but the last `-m` when `m` is negative. */
  function PyHead<T>(refs: seq<T>, m: int): (r: seq<T>)
    ensures r <= refs
    ensures 0 <= m ==> |r| == if m < |refs| then m else |refs|
    ensures m < 0 ==> |r| == if |refs| + m < 0 then 0 else |refs| + m
  {
    if 0 <= m then (if m < |refs| then refs[..m] else refs)
    else if |refs| + m < 0 then []
    else refs[..|refs| + m]
  }

  /** The record appended for one reference: none when it is skipped. */
  function Kept(pub: ScholarPub): (r: seq<Publication>)
    ensures |r| <= 1
    ensures r != [] ==> r[0] == Transform(pub) && !ShouldSkipPaper(r[0].title, r[0].venue)
  {
    if Skipped(pub) then [] else [Transform(pub)]
  }

  /** The records kept from `refs`, in order: the transform of each reference not skipped. */
  function Selected(refs: seq<ScholarPub>): (r: seq<Publication>)
    ensures |r| <= |refs|
  {
    FlatMapAtMostOne(Kept, refs);
    FlatMap(Kept, refs)
  }

  lemma SelectedCons(refs: seq<ScholarPub>)
    requires refs != []
    ensures Selected(refs) == Kept(refs[0]) + Selected(refs[1..])
  {
  }

  /** The number of skipped references in `refs`. */
  function SkipCount(refs: seq<ScholarPub>): nat {
    if refs == [] then 0 else (if Skipped(refs[0]) then 1 else 0) + SkipCount(refs[1..])
  }

  /** Skipped references are dropped, not replaced: each one shortens the output by one. */
  lemma {:induction false} SelectedLength(refs: seq<ScholarPub>)
    ensures |Selected(refs)| + SkipCount(refs) == |refs|
  {
    if refs != [] {
      SelectedCons(refs);
      SelectedLength(refs[1..]);
    }
  }

  /** No kept record matches the blacklist, and every kept record is the transform of a reference. */
  lemma {:induction false} SelectedNotSkipped(refs: seq<ScholarPub>)
    ensures forall p :: p in Selected(refs) ==> !ShouldSkipPaper(p.title, p.venue)
    ensures forall p :: p in Selected(refs) ==> exists k :: 0 <= k < |refs| && p == Transform(refs[k])
  {
    if refs != [] {
      var rest := refs[1..];
      SelectedCons(refs);
      SelectedNotSkipped(rest);
      forall p | p in Selected(refs)
        ensures exists k :: 0 <= k < |refs| && p == Transform(refs[k])
      {
        if p in Selected(rest) {
          var k :| 0 <= k < |rest| && p == Transform(rest[k]);
          assert refs[k + 1] == rest[k];
        }
      }
    }
  }

  /** Selection works reference by reference, so it keeps the references' order. */
  lemma SelectedAppend(a: seq<ScholarPub>, b: seq<ScholarPub>)
    ensures Selected(a + b) == Selected(a) + Selected(b)
  {
    FlatMapAppend(Kept, a, b);
  }

  lemma SelectedSnoc(refs: seq<ScholarPub>, i: int)
    requires 0 <= i < |refs|
    ensures Selected(refs[..i + 1]) == Selected(refs[..i])
      + if ShouldSkipPaper(Trim(PySpace, Get(refs[i].bib, "title")), VenueOf(refs[i].bib))
        then [] else [Transform(refs[i])]
  {
    FlatMapSnoc(Kept, refs, i);
  }

  /**
   * The loop of `fetch_publications` over the filled references: examines the
   * first `maxPapers` of them, skips blacklisted ones and appends the rest.
   */
  method FetchPublications(refs: seq<ScholarPub>, maxPapers: int) returns (pubsOut: seq<Publication>)
    ensures pubsOut == Selected(PyHead(refs, maxPapers))
  {
    var window := PyHead(refs, maxPapers);
    pubsOut := [];
    for i := 0 to |window|
      invariant pubsOut == Selected(window[..i])
    {
      SelectedSnoc(window, i);
      var pub := window[i];
      var title := Trim(PySpace, Get(pub.bib, "title"));
      var venue := VenueOf(pub.bib);
      if ShouldSkipPaper(title, venue) {
        continue;
      }
      pubsOut := pubsOut + [Transform(pub)];
    }
    assert window[..|window|] == window;
  }

  /** At most `maxPapers` records come out. */
  lemma OutputBounded(refs: seq<ScholarPub>, maxPapers: int)
    requires 0 <= maxPapers
    ensures |Selected(PyHead(refs, maxPapers))| <= maxPapers
  {
    SelectedLength(PyHead(refs, maxPapers));
  }

  /** References after the first `maxPapers` are never examined. */
  lemma LaterReferencesIgnored(refs: seq<ScholarPub>, more: seq<ScholarPub>, maxPapers: int)
    requires 0 <= maxPapers <= |refs|
    ensures Selected(PyHead(refs + more, maxPapers)) == Selected(PyHead(refs, maxPapers))
  {
    assert PyHead(refs + more, maxPapers) == PyHead(refs, maxPapers);
  }

  /** A run of the script writes at most `MAX_PAPERS` (40) records. */
  lemma ScriptOutputBounded(refs: seq<ScholarPub>)
    ensures |Selected(PyHead(refs, MaxPapers))| <= 40
  {
    OutputBounded(refs, MaxPapers);
  }
}
