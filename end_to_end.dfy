/**
 * How the page renders what the scraper writes: a scraped record carries no
 * DOI and no code link, so its card shows at most the PDF and Scholar chips.
 */
module EndToEnd {
  import opened Picks
  import Records
  import Publications
  import ScholarUpdate

  /** Links with no DOI and no code link give at most the PDF and Scholar chips. */
  lemma ScrapedChips(links: Records.Links)
    requires links.doi == "" && links.code == ""
    ensures Publications.PrimaryUrl(links) == (if links.pdf != "" then links.pdf else links.scholar)
    ensures Publications.ChipsOf(links) != [] <==> links.pdf != "" || links.scholar != ""
    ensures forall c :: c in Publications.ChipsOf(links) ==> c.caption == "PDF" || c.caption == "Scholar"
  {
    Publications.PrimaryUrlIsAChip(links);
    forall c | c in Publications.ChipsOf(links) ensures c.caption == "PDF" || c.caption == "Scholar" {
      PresentFromTruthy(Publications.ChipSlots(links), c);
    }
  }

  /**
   * The card of a scraped record opens the e-print when there is one and the
   * Scholar page otherwise, and only PDF and Scholar chips can appear on it.
   */
  lemma ScrapedCardLinks(pub: ScholarUpdate.ScholarPub)
    ensures var card := Publications.CardOf(ScholarUpdate.Transform(pub));
      && card.primaryUrl == (if pub.eprintUrl != "" then pub.eprintUrl else pub.pubUrl)
      && (card.chips != [] <==> pub.eprintUrl != "" || pub.pubUrl != "")
      && (forall c :: c in card.chips ==> c.caption == "PDF" || c.caption == "Scholar")
  {
    ScrapedChips(ScholarUpdate.Transform(pub).links);
  }
}
