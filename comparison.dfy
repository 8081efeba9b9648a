/**
 * Where the two scrapers agree and where they differ on the score of a
 * finished game.
 */
module Comparison {
  import opened Wrappers
  import opened Text
  import StaticScraper
  import BrowserScraper

  /** A label with exactly one hyphenated token gets that token as its score from both scrapers. */
  lemma ScoresAgreeOnOneHyphen(t: string, i: nat)
    requires i < |Split(t)| && '-' in Split(t)[i]
    requires forall j :: 0 <= j < |Split(t)| && j != i ==> '-' !in Split(t)[j]
    ensures StaticScraper.LabelScore(t) == Split(t)[i]
    ensures BrowserScraper.LabelScore(t) == Split(t)[i]
  {
    StaticScraper.LabelScoreSpec(t);
    BrowserScraper.LabelScoreSpec(t);
  }

  /** With two hyphenated tokens the static scraper keeps the second and the browser scraper the first. */
  lemma ScoresDifferOnTwoHyphens(t: string)
    requires |Split(t)| == 2 && '-' in Split(t)[0] && '-' in Split(t)[1]
    ensures StaticScraper.LabelScore(t) == Split(t)[1]
    ensures BrowserScraper.LabelScore(t) == Split(t)[0]
  {
    StaticScraper.LabelScoreSpec(t);
    BrowserScraper.LabelScoreSpec(t);
  }

  /** Without a label the static scraper has no score, while the browser scraper scores the empty text as "". */
  lemma ScoresWithoutLabel(ev: BrowserScraper.Event)
    requires BrowserScraper.SafeText(ev.resultLabel).None?
    ensures StaticScraper.ResultScore(None) == None
    ensures BrowserScraper.LabelScore(BrowserScraper.LabelText(ev)) == ""
  {
    assert BrowserScraper.LabelText(ev) == "";
    assert LeadingSpaces("") == 0;
    assert Split("") == [];
  }
}
