/**
 * The profile card derived from config.json: the displayed name and the
 * document title, the affiliation line, the ordered online links, and the
 * conditions under which the internship note and the CV link are shown.
 */
module Profile {
  import opened Wrappers
  import opened Picks

  /**
   * The fields of config.json that the derivations read. A missing or empty
   * string field is "", and a missing `openToInternships` is `false`.
   */
  datatype Config = Config(
    name: string,
    title: string,
    affiliation: string,
    affiliation2: string,
    location: string,
    github: string,
    scholarUrl: string,
    linkedinUrl: string,
    orcidUrl: string,
    twitterUrl: string,
    openToInternships: bool,
    internshipNote: string,
    cvUrl: string)

  const DefaultName := "Your Name"
  const TitleSuffix := " – Research Homepage"
  const GitHubPrefix := "https://github.com/"

  /** The name shown on the profile card, with a placeholder when none is configured. */
  function ProfileName(cfg: Config): (r: string)
    ensures r != ""
    ensures cfg.name != "" ==> r == cfg.name
    ensures cfg.name == "" ==> r == DefaultName
  {
    if cfg.name != "" then cfg.name else DefaultName
  }

  /**
   * The browser tab title: the configured name with the homepage suffix, or
   * the page's own title (`current`) left as it is when no name is configured.
   */
  function DocumentTitle(cfg: Config, current: string): (r: string)
    ensures cfg.name == "" ==> r == current
    ensures cfg.name != "" ==> |r| == |cfg.name| + |TitleSuffix|
  {
    if cfg.name != "" then cfg.name + TitleSuffix else current
  }

  /** The configured name can be read back from the document title by dropping the suffix. */
  lemma DocumentTitleNamesOwner(cfg: Config, current: string)
    requires cfg.name != ""
    ensures DocumentTitle(cfg, current)[..|cfg.name|] == cfg.name
    ensures DocumentTitle(cfg, current)[|cfg.name|..] == TitleSuffix
  {
    var r := DocumentTitle(cfg, current);
    assert r == cfg.name + TitleSuffix;
  }

  /**
   * The affiliation line: the first affiliation, then ", " and the second one
   * when a second one is configured (also when the first one is missing).
   */
  function Affiliation(cfg: Config): (r: string)
    ensures cfg.affiliation2 == "" ==> r == cfg.affiliation
    ensures r == "" <==> cfg.affiliation == "" && cfg.affiliation2 == ""
  {
    if cfg.affiliation2 != "" then cfg.affiliation + ", " + cfg.affiliation2 else cfg.affiliation
  }

  /** With a second affiliation, the line splits back into the two affiliations around ", ". */
  lemma AffiliationSplits(cfg: Config)
    requires cfg.affiliation2 != ""
    ensures var r, n := Affiliation(cfg), |cfg.affiliation|;
      |r| == n + 2 + |cfg.affiliation2|
      && r[..n] == cfg.affiliation && r[n..n + 2] == ", " && r[n + 2..] == cfg.affiliation2
  {
    var r := Affiliation(cfg);
    assert r == cfg.affiliation + ", " + cfg.affiliation2;
  }

  /** The GitHub profile URL for a user name. */
  function GitHubUrl(user: string): (r: string)
    ensures |r| == |GitHubPrefix| + |user|
    ensures r[..|GitHubPrefix|] == GitHubPrefix && r[|GitHubPrefix|..] == user
  {
    GitHubPrefix + user
  }

  /** The candidate online links, in the order the page pushes them. */
  function SocialCandidates(cfg: Config): (r: seq<Candidate>)
    ensures DistinctCaptions(r)
  {
    [Candidate(cfg.github, Link("GitHub", GitHubUrl(cfg.github))),
     Candidate(cfg.scholarUrl, Link("Scholar", cfg.scholarUrl)),
     Candidate(cfg.linkedinUrl, Link("LinkedIn", cfg.linkedinUrl)),
     Candidate(cfg.orcidUrl, Link("ORCID", cfg.orcidUrl)),
     Candidate(cfg.twitterUrl, Link("Twitter/X", cfg.twitterUrl))]
  }

  /** The number of configured online-link fields. */
  function ConfiguredLinkCount(cfg: Config): nat {
    (if cfg.github != "" then 1 else 0) + (if cfg.scholarUrl != "" then 1 else 0)
      + (if cfg.linkedinUrl != "" then 1 else 0) + (if cfg.orcidUrl != "" then 1 else 0)
      + (if cfg.twitterUrl != "" then 1 else 0)
  }

  /** The position of an online-link caption in the fixed order. */
  function SocialRank(caption: string): int {
    if caption == "GitHub" then 0
    else if caption == "Scholar" then 1
    else if caption == "LinkedIn" then 2
    else if caption == "ORCID" then 3
    else if caption == "Twitter/X" then 4
    else 5
  }

  /** The online links: one per configured field, GitHub, Scholar, LinkedIn, ORCID, Twitter/X. */
  function SocialLinks(cfg: Config): (r: seq<Link>)
    ensures Link("GitHub", GitHubUrl(cfg.github)) in r <==> cfg.github != ""
    ensures Link("Scholar", cfg.scholarUrl) in r <==> cfg.scholarUrl != ""
    ensures Link("LinkedIn", cfg.linkedinUrl) in r <==> cfg.linkedinUrl != ""
    ensures Link("ORCID", cfg.orcidUrl) in r <==> cfg.orcidUrl != ""
    ensures Link("Twitter/X", cfg.twitterUrl) in r <==> cfg.twitterUrl != ""
  {
    var cands := SocialCandidates(cfg);
    PresentExactly(cands, 0);
    PresentExactly(cands, 1);
    PresentExactly(cands, 2);
    PresentExactly(cands, 3);
    PresentExactly(cands, 4);
    Present(cands)
  }

  /** There are exactly as many online links as configured link fields. */
  lemma SocialLinkCount(cfg: Config)
    ensures |SocialLinks(cfg)| == ConfiguredLinkCount(cfg)
  {
    var c := SocialCandidates(cfg);
    assert c[..4][..3] == c[..3];
    assert c[..3][..2] == c[..2];
    assert c[..2][..1] == c[..1];
    assert c[..1][..0] == [];
    assert c[..5] == c;
    assert Truthy(c[..1]) == (if cfg.github != "" then 1 else 0);
    assert Truthy(c[..2]) == Truthy(c[..1]) + (if cfg.scholarUrl != "" then 1 else 0);
    assert Truthy(c[..3]) == Truthy(c[..2]) + (if cfg.linkedinUrl != "" then 1 else 0);
    assert Truthy(c[..4]) == Truthy(c[..3]) + (if cfg.orcidUrl != "" then 1 else 0);
    assert Truthy(c) == Truthy(c[..4]) + (if cfg.twitterUrl != "" then 1 else 0);
  }

  /** The online links come in the fixed order GitHub, Scholar, LinkedIn, ORCID, Twitter/X. */
  lemma SocialLinksInOrder(cfg: Config, i: int, j: int)
    requires 0 <= i < j < |SocialLinks(cfg)|
    ensures SocialRank(SocialLinks(cfg)[i].caption) < SocialRank(SocialLinks(cfg)[j].caption)
  {
    var c := SocialCandidates(cfg);
    PresentInOrder(c, i, j);
    var p, q :| 0 <= p < q < |c|
      && SocialLinks(cfg)[i] == c[p].link && SocialLinks(cfg)[j] == c[q].link;
    SocialRankAt(cfg, p);
    SocialRankAt(cfg, q);
  }

  lemma SocialRankAt(cfg: Config, k: int)
    requires 0 <= k < 5
    ensures SocialRank(SocialCandidates(cfg)[k].link.caption) == k
  {
  }

  /** The internship note is shown when internships are open and a note is configured. */
  function InternshipNote(cfg: Config): (r: Option<string>)
    ensures r.Some? <==> cfg.openToInternships && cfg.internshipNote != ""
    ensures r.Some? ==> r.value == cfg.internshipNote
  {
    if cfg.openToInternships && cfg.internshipNote != "" then Some(cfg.internshipNote) else None
  }

  /** The CV link is shown when a CV URL is configured. */
  function CvLink(cfg: Config): (r: Option<string>)
    ensures r.Some? <==> cfg.cvUrl != ""
    ensures r.Some? ==> r.value == cfg.cvUrl
  {
    if cfg.cvUrl != "" then Some(cfg.cvUrl) else None
  }

  /** What the page shows from the configuration. */
  datatype ProfileView = ProfileView(
    documentTitle: string,
    name: string,
    title: string,
    affiliation: string,
    location: string,
    links: seq<Link>,
    internshipNote: Option<string>,
    cvLink: Option<string>)

  /**
   * The view a loaded configuration gives: a name that is never blank, the
   * document title left alone without a name, the job title and location as
   * configured, and each optional line shown exactly when it is configured.
   */
  function ProfileOf(cfg: Config, currentTitle: string): (v: ProfileView)
    ensures v.name != ""
    ensures cfg.name == "" ==> v.documentTitle == currentTitle
    ensures v.title == cfg.title && v.location == cfg.location
    ensures v.affiliation == "" <==> cfg.affiliation == "" && cfg.affiliation2 == ""
    ensures v.internshipNote.Some? <==> cfg.openToInternships && cfg.internshipNote != ""
    ensures v.cvLink.Some? <==> cfg.cvUrl != ""
  {
    ProfileView(DocumentTitle(cfg, currentTitle), ProfileName(cfg), cfg.title, Affiliation(cfg),
      cfg.location, SocialLinks(cfg), InternshipNote(cfg), CvLink(cfg))
  }

  /**
   * Applies config.json to the page. `fetched` is the parsed configuration, or
   * `None` when the request or the parse failed, in which case nothing changes;
   * `currentTitle` is the document title before loading.
   */
  method LoadConfig(fetched: Option<Config>, currentTitle: string) returns (view: Option<ProfileView>)
    ensures fetched.None? ==> view.None?
    ensures fetched.Some? ==> view == Some(ProfileOf(fetched.value, currentTitle))
  {
    if fetched.None? {
      return None;
    }
    var cfg := fetched.value;
    var documentTitle := currentTitle;
    if cfg.name != "" {
      documentTitle := cfg.name + TitleSuffix;
    }
    var affiliation := if cfg.affiliation2 != "" then cfg.affiliation + ", " + cfg.affiliation2 else cfg.affiliation;
    var links := PushPresent(SocialCandidates(cfg));
    var note: Option<string> := None;
    if cfg.openToInternships && cfg.internshipNote != "" {
      note := Some(cfg.internshipNote);
    }
    var cv: Option<string> := None;
    if cfg.cvUrl != "" {
      cv := Some(cfg.cvUrl);
    }
    view := Some(ProfileView(documentTitle, ProfileName(cfg), cfg.title, affiliation, cfg.location, links, note, cv));
  }
}
