/**
 * Lists built by pushing one labelled link per truthy field, in a fixed
 * order: the publication chips and the profile's online links.
 */
module Picks {

  /** A labelled link: the text shown and the URL it opens. */
  datatype Link = Link(caption: string, url: string)

  /** A link that is pushed only when `field` is truthy (not ""). */
  datatype Candidate = Candidate(field: string, link: Link)

  /** The number of candidates with a truthy field. */
  function Truthy(cands: seq<Candidate>): nat {
    if cands == [] then 0
    else Truthy(cands[..|cands| - 1]) + (if cands[|cands| - 1].field != "" then 1 else 0)
  }

  /** The positions of the candidates with a truthy field, in increasing order. */
  function Picked(cands: seq<Candidate>): (r: seq<nat>)
    ensures |r| == Truthy(cands)
    ensures forall i :: 0 <= i < |r| ==> r[i] < |cands|
    ensures forall i, j :: 0 <= i < j < |r| ==> r[i] < r[j]
    ensures forall k :: 0 <= k < |cands| ==> (k in r <==> cands[k].field != "")
  {
    if cands == [] then []
    else
      var n := |cands| - 1;
      var front := Picked(cands[..n]);
      assert forall k :: 0 <= k < n ==> cands[..n][k] == cands[k];
      front + (if cands[n].field != "" then [n] else [])
  }

  /** The pushed links: one per truthy candidate, in candidate order. */
  function Present(cands: seq<Candidate>): (r: seq<Link>)
    ensures |r| == Truthy(cands)
  {
    var picked := Picked(cands);
    seq(|picked|, i requires 0 <= i < |picked| => cands[picked[i]].link)
  }

  /** Every pushed link comes from a truthy candidate. */
  lemma PresentFromTruthy(cands: seq<Candidate>, l: Link)
    requires l in Present(cands)
    ensures exists k :: 0 <= k < |cands| && cands[k].field != "" && cands[k].link == l
  {
    var picked := Picked(cands);
    var i :| 0 <= i < |picked| && Present(cands)[i] == l;
    assert picked[i] in picked;
  }

  /** Captions that tell the candidates apart. */
  ghost predicate DistinctCaptions(cands: seq<Candidate>) {
    forall i, j :: 0 <= i < j < |cands| ==> cands[i].link.caption != cands[j].link.caption
  }

  /** With distinct captions, a candidate's link is pushed exactly when its field is truthy. */
  lemma PresentExactly(cands: seq<Candidate>, k: int)
    requires DistinctCaptions(cands) && 0 <= k < |cands|
    ensures cands[k].link in Present(cands) <==> cands[k].field != ""
  {
    var picked := Picked(cands);
    if cands[k].field != "" {
      var i :| 0 <= i < |picked| && picked[i] == k;
      assert Present(cands)[i] == cands[k].link;
    }
    if cands[k].link in Present(cands) {
      PresentFromTruthy(cands, cands[k].link);
      var m :| 0 <= m < |cands| && cands[m].field != "" && cands[m].link == cands[k].link;
      assert m == k;
    }
  }

  /** The pushed links keep the candidates' order: a later link comes from a later candidate. */
  lemma PresentInOrder(cands: seq<Candidate>, i: int, j: int)
    requires 0 <= i < j < |Present(cands)|
    ensures exists p, q :: (0 <= p < q < |cands|
      && Present(cands)[i] == cands[p].link && Present(cands)[j] == cands[q].link)
  {
    var picked := Picked(cands);
    assert Present(cands)[i] == cands[picked[i]].link;
    assert Present(cands)[j] == cands[picked[j]].link;
  }

  lemma PresentSnoc(cands: seq<Candidate>, k: int)
    requires 0 <= k < |cands|
    ensures Present(cands[..k + 1])
      == Present(cands[..k]) + (if cands[k].field != "" then [cands[k].link] else [])
  {
    var s := cands[..k + 1];
    assert s[..k] == cands[..k];
    var front := Picked(cands[..k]);
    assert Picked(s) == front + (if cands[k].field != "" then [k] else []);
    var r := Present(s);
    var f := Present(cands[..k]);
    forall i | 0 <= i < |f| ensures r[i] == f[i] {
      assert front[i] < k;
    }
  }

  /** Pushes the link of every truthy candidate, front to back. */
  method PushPresent(cands: seq<Candidate>) returns (links: seq<Link>)
    ensures links == Present(cands)
  {
    links := [];
    for k := 0 to |cands|
      invariant links == Present(cands[..k])
    {
      PresentSnoc(cands, k);
      if cands[k].field != "" {
        links := links + [cands[k].link];
      }
    }
    assert cands[..|cands|] == cands;
  }
}
