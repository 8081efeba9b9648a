/**
 * The browser scraper: one schedule event of the rendered page, reached
 * through locators, is turned into a schedule record.
 */
module BrowserScraper {
  import opened Wrappers
  import opened Text
  import opened Schedule

  /**
   * A matched element as the browser reports it: its rendered text (nothing
   * when reading it times out), its attributes, the `currentSrc` and `src`
   * properties of an image, and whether evaluating a script on it times out.
   */
  datatype Element = Element(
    innerText: Option<string>,
    attrs: map<string, string>,
    currentSrc: string,
    srcProperty: string,
    evaluateTimesOut: bool)

  /** The elements a locator matches, in document order. */
  type Locator = seq<Element>

  /** `safe_text(locator)`: the stripped rendered text of the first match, if any. */
  function SafeText(loc: Locator): (r: Option<string>)
    ensures r.Some? <==> |loc| > 0 && loc[0].innerText.Some?
    ensures r.Some? ==> r.value == Strip(loc[0].innerText.value)
  {
    if |loc| == 0 then None
    else match loc[0].innerText
      case None => None
      case Some(t) => Some(Strip(t))
  }

  /** `safe_attr(locator, name)`: the attribute of the first match, if there is a match that has it. */
  function SafeAttr(loc: Locator, name: string): (r: Option<string>)
    ensures r.Some? <==> |loc| > 0 && name in loc[0].attrs
    ensures r.Some? ==> r.value == loc[0].attrs[name]
  {
    if |loc| == 0 || name !in loc[0].attrs then None else Some(loc[0].attrs[name])
  }

  const DataImage: string := "data:image"

  /** The script `el.currentSrc || el.src || el.getAttribute('data-src') || ''`. */
  function ScriptSource(el: Element): string {
    if el.currentSrc != "" then el.currentSrc
    else if el.srcProperty != "" then el.srcProperty
    else if "data-src" in el.attrs && el.attrs["data-src"] != "" then el.attrs["data-src"]
    else ""
  }

  /** A candidate image URL is used when it is there, non-empty and not an inline placeholder. */
  predicate Usable(c: Option<string>) {
    c.Some? && c.value != "" && !StartsWith(c.value, DataImage)
  }

  /** `get_img_src(locator)`: the best image URL of the first match, or nothing. */
  function GetImgSrc(loc: Locator): Option<string> {
    if |loc| == 0 then None
    else if loc[0].evaluateTimesOut then None
    else
      var current := ScriptSource(loc[0]);
      if current != "" && !StartsWith(current, DataImage) then Some(current)
      else
        var src := SafeAttr(loc, "src");
        if src.Some? && src.value != "" && !StartsWith(src.value, DataImage) then src
        else
          var dataSrc := SafeAttr(loc, "data-src");
          if dataSrc.Some? && dataSrc.value != "" && !StartsWith(dataSrc.value, DataImage) then dataSrc
          else None
  }

  /** The first usable candidate, in order. */
  function FirstUsable(cs: seq<Option<string>>): Option<string> {
    if cs == [] then None
    else if Usable(cs[0]) then cs[0]
    else FirstUsable(cs[1..])
  }

  /** The first usable candidate is usable, there is one exactly when some candidate is usable, and none before it is. */
  lemma {:induction false} FirstUsableSpec(cs: seq<Option<string>>)
    ensures FirstUsable(cs).Some? ==> Usable(FirstUsable(cs))
    ensures FirstUsable(cs).Some? <==> exists i :: 0 <= i < |cs| && Usable(cs[i])
    ensures FirstUsable(cs).Some? ==>
      exists i :: 0 <= i < |cs| && cs[i] == FirstUsable(cs) && forall j :: 0 <= j < i ==> !Usable(cs[j])
  {
    if cs != [] && !Usable(cs[0]) {
      var r := FirstUsable(cs[1..]);
      FirstUsableSpec(cs[1..]);
      assert forall i :: 1 <= i < |cs| ==> cs[i] == cs[1..][i - 1];
      if r.Some? {
        var i :| 0 <= i < |cs[1..]| && cs[1..][i] == r && forall j :: 0 <= j < i ==> !Usable(cs[1..][j]);
        assert cs[i + 1] == r && forall j :: 0 <= j < i + 1 ==> !Usable(cs[j]);
      }
    } else if cs != [] {
      assert cs[0] == FirstUsable(cs);
    }
  }

  /** The candidates `get_img_src` tries, in order: the script's answer, the "src" attribute, the "data-src" attribute. */
  function Candidates(loc: Locator): seq<Option<string>>
    requires |loc| > 0
  {
    [Some(ScriptSource(loc[0])), SafeAttr(loc, "src"), SafeAttr(loc, "data-src")]
  }

  /**
   * `get_img_src` gives nothing when there is no match or the script times out,
   * and otherwise the first usable candidate; so it never gives an empty URL
   * or a "data:image" placeholder.
   */
  lemma GetImgSrcSpec(loc: Locator)
    ensures |loc| == 0 || loc[0].evaluateTimesOut ==> GetImgSrc(loc) == None
    ensures |loc| > 0 && !loc[0].evaluateTimesOut ==> GetImgSrc(loc) == FirstUsable(Candidates(loc))
    ensures GetImgSrc(loc).Some? ==> GetImgSrc(loc).value != "" && !StartsWith(GetImgSrc(loc).value, DataImage)
  {
    if |loc| > 0 && !loc[0].evaluateTimesOut {
      var cs := Candidates(loc);
      FirstUsableSpec(cs);
      assert cs[1..] == [cs[1], cs[2]];
      assert cs[1..][1..] == [cs[2]];
      assert cs[1..][1..][1..] == [];
    }
  }

  /** A match whose script answer is a placeholder falls back to its "src" attribute. */
  lemma GetImgSrcPlaceholder(loc: Locator, src: string)
    requires |loc| > 0 && !loc[0].evaluateTimesOut
    requires StartsWith(ScriptSource(loc[0]), DataImage)
    requires "src" in loc[0].attrs && loc[0].attrs["src"] == src && src != "" && !StartsWith(src, DataImage)
    ensures GetImgSrc(loc) == Some(src)
  {
  }

  /** One ".schedule-event-bottom__link" element and the ".schedule-event-item-links__title" elements inside it. */
  datatype Anchor = Anchor(element: Element, title: Locator)

  /** The locators of one schedule event that `parse_event` reads. */
  datatype Event = Event(
    venueType: Locator,
    weekday: Locator,
    dateLabel: Locator,
    winMarkers: nat,           // how many "__win" markers match
    lossMarkers: nat,          // how many "__loss" markers match
    tieMarkers: nat,           // how many "__tie" markers match
    resultLabel: Locator,
    imageWrappers: seq<Locator>,  // the "img" locator inside each image wrapper, in order
    divider: Locator,
    opponentName: Locator,
    location: Locator,
    tvLogo: Locator,
    anchors: seq<Anchor>)

  /** The first token of `ws` that holds a hyphen, or `default` when none does. */
  function FirstHyphenated(ws: seq<string>, default: string): string {
    if ws == [] then default
    else if '-' in ws[0] then ws[0]
    else FirstHyphenated(ws[1..], default)
  }

  /**
   * When some token holds a hyphen, the result is the first token that does;
   * when none does, the result is the default.
   */
  lemma {:induction false} FirstHyphenatedSpec(ws: seq<string>, default: string)
    ensures (exists i :: 0 <= i < |ws| && '-' in ws[i]) ==>
      var r := FirstHyphenated(ws, default);
      '-' in r && exists i :: 0 <= i < |ws| && ws[i] == r && forall j :: 0 <= j < i ==> '-' !in ws[j]
    ensures (forall i :: 0 <= i < |ws| ==> '-' !in ws[i]) ==> FirstHyphenated(ws, default) == default
  {
    if ws != [] && '-' !in ws[0] {
      var r := FirstHyphenated(ws[1..], default);
      FirstHyphenatedSpec(ws[1..], default);
      assert forall i :: 1 <= i < |ws| ==> ws[i] == ws[1..][i - 1];
      if exists i :: 0 <= i < |ws| && '-' in ws[i] {
        var k :| 0 <= k < |ws| && '-' in ws[k];
        assert '-' in ws[1..][k - 1];
        var i :| 0 <= i < |ws[1..]| && ws[1..][i] == r && forall j :: 0 <= j < i ==> '-' !in ws[1..][j];
        assert ws[i + 1] == r && forall j :: 0 <= j < i + 1 ==> '-' !in ws[j];
      }
    }
  }

  /**
   * The score is the first whitespace-separated token of the label text that
   * holds a hyphen; when none does, it is the label text itself.
   */
  lemma LabelScoreSpec(labelText: string)
    ensures (exists i :: 0 <= i < |Split(labelText)| && '-' in Split(labelText)[i]) ==>
      '-' in LabelScore(labelText) &&
      exists i :: 0 <= i < |Split(labelText)| && Split(labelText)[i] == LabelScore(labelText) &&
        forall j :: 0 <= j < i ==> '-' !in Split(labelText)[j]
    ensures (forall i :: 0 <= i < |Split(labelText)| ==> '-' !in Split(labelText)[i]) ==> LabelScore(labelText) == labelText
  {
    FirstHyphenatedSpec(Split(labelText), labelText);
  }

  /** The label text of a finished game: the result label's text, or "" when it has none. */
  function LabelText(ev: Event): string {
    SafeText(ev.resultLabel).GetOr("")
  }

  /** The score of a finished game: the first hyphenated token of the label text, else the label text. */
  function LabelScore(labelText: string): string {
    FirstHyphenated(Split(labelText), labelText)
  }

  /** The label "W 27-14" gives the score "27-14". */
  lemma LabelScoreExample()
    ensures LabelScore("W 27-14") == "27-14"
  {
    ScoreLabelWords();
  }

  /** Whether any win, loss or tie marker matches. */
  predicate Finished(ev: Event) {
    ev.winMarkers > 0 || ev.lossMarkers > 0 || ev.tieMarkers > 0
  }

  /** Whether an unfinished game's result label has non-empty text. */
  predicate HasKickoff(ev: Event) {
    !Finished(ev) && SafeText(ev.resultLabel).Some? && SafeText(ev.resultLabel).value != ""
  }

  /** The title of a link: the title element's text when non-empty, else the link's own cleaned text. */
  function TitleOf(a: Anchor): Option<string> {
    var t := SafeText(a.title);
    if t.Some? && t.value != "" then t else CleanSpace(SafeText([a.element]))
  }

  /** The link of one anchor: only an anchor with a non-empty href gives one. */
  function LinkOf(a: Anchor): (r: Option<Link>)
    ensures r.Some? <==> "href" in a.element.attrs && a.element.attrs["href"] != ""
    ensures r.Some? ==> r.value == Link(TitleOf(a), Absolutize(a.element.attrs["href"]))
  {
    var href := SafeAttr([a.element], "href");
    if href.Some? && href.value != "" then Some(Link(TitleOf(a), Absolutize(href.value))) else None
  }

  function Links(anchors: seq<Anchor>): seq<Link> {
    Keep(anchors, LinkOf)
  }

  /**
   * The links are those of the anchors with a non-empty href, one each and in
   * document order, and none of them is site-relative.
   */
  lemma LinksSpec(anchors: seq<Anchor>)
    ensures |Links(anchors)| == |KeptAt(anchors, LinkOf)|
    ensures forall i :: 0 <= i < |anchors| ==>
              ("href" in anchors[i].element.attrs && anchors[i].element.attrs["href"] != "" <==> i in KeptAt(anchors, LinkOf))
    ensures forall k, m :: 0 <= k < m < |KeptAt(anchors, LinkOf)| ==> KeptAt(anchors, LinkOf)[k] < KeptAt(anchors, LinkOf)[m]
    ensures forall k :: 0 <= k < |Links(anchors)| ==>
              KeptAt(anchors, LinkOf)[k] < |anchors| &&
              Links(anchors)[k] == LinkOf(anchors[KeptAt(anchors, LinkOf)[k]]).value &&
              !StartsWith(Links(anchors)[k].href, "/")
  {
    KeepExactly(anchors, LinkOf);
    forall k | 0 <= k < |Links(anchors)|
      ensures !StartsWith(Links(anchors)[k].href, "/")
    {
      var a := anchors[KeptAt(anchors, LinkOf)[k]];
      AbsolutizeSpec(a.element.attrs["href"]);
    }
  }

  /** The result part of `parse_event`: the status, the result of a finished game and the kickoff of an upcoming one. */
  method ClassifyResult(ev: Event) returns (status: Status, result: Option<GameResult>, kickoff: Option<string>)
    ensures status == Final <==> Finished(ev)
    ensures status == Upcoming <==> HasKickoff(ev)
    ensures result.Some? <==> status == Final
    ensures kickoff.Some? <==> status == Upcoming
    ensures status == Final ==>
      result.value == GameResult(OutcomeOf(ev.winMarkers > 0, ev.lossMarkers > 0, ev.tieMarkers > 0),
                                 Some(LabelScore(LabelText(ev))))
    ensures status == Upcoming ==> kickoff == SafeText(ev.resultLabel)
  {
    status := Tbd;
    result := None;
    kickoff := None;
    var hasWin := ev.winMarkers > 0;
    var hasLoss := ev.lossMarkers > 0;
    var hasTie := ev.tieMarkers > 0;
    if hasWin || hasLoss || hasTie {
      status := Final;
      var outcome := if hasWin then W else if hasLoss then L else T;
      var read := SafeText(ev.resultLabel);
      var labelText := if read.Some? && read.value != "" then read.value else "";
      var score := FirstHyphenated(Split(labelText), labelText);
      result := Some(GameResult(outcome, Some(score)));
    } else {
      var kickoffText := SafeText(ev.resultLabel);
      if kickoffText.Some? && kickoffText.value != "" {
        status := Upcoming;
        kickoff := kickoffText;
      }
    }
  }

  /** The logo part of `parse_event`: the first image wrapper is Nebraska's, the second the opponent's. */
  method Logos(imageWrappers: seq<Locator>) returns (nebraska: Option<string>, opponent: Option<string>)
    ensures nebraska == (if |imageWrappers| >= 1 then GetImgSrc(imageWrappers[0]) else None)
    ensures opponent == (if |imageWrappers| >= 2 then GetImgSrc(imageWrappers[1]) else None)
  {
    nebraska := None;
    opponent := None;
    if |imageWrappers| >= 1 {
      nebraska := GetImgSrc(imageWrappers[0]);
    }
    if |imageWrappers| >= 2 {
      opponent := GetImgSrc(imageWrappers[1]);
    }
  }

  /** The indexed link loop of `parse_event`. */
  method CollectLinks(anchors: seq<Anchor>) returns (links: seq<Link>)
    ensures links == Links(anchors)
  {
    links := [];
    var i := 0;
    while i < |anchors|
      invariant i <= |anchors|
      invariant links == Links(anchors[..i])
    {
      var a := anchors[i];
      var title := SafeText(a.title);
      if !(title.Some? && title.value != "") {
        title := CleanSpace(SafeText([a.element]));
      }
      var href := SafeAttr([a.element], "href");
      if href.Some? && href.value != "" {
        var h := href.value;
        if StartsWith(h, "/") {
          h := SiteRoot + h;
        }
        links := links + [Link(title, h)];
      }
      KeepSnoc(anchors, i, LinkOf);
      i := i + 1;
    }
    assert anchors[..|anchors|] == anchors;
  }

  /** `parse_event(event)`. */
  method ParseEvent(ev: Event) returns (g: GameRecord)
    ensures g.venueType == SafeText(ev.venueType)
    ensures g.weekday == SafeText(ev.weekday)
    ensures g.dateText == SafeText(ev.dateLabel)
    ensures g.status == Final <==> Finished(ev)
    ensures g.status == Upcoming <==> HasKickoff(ev)
    ensures g.result.Some? <==> g.status == Final
    ensures g.kickoff.Some? <==> g.status == Upcoming
    ensures g.status == Final ==>
      g.result.value == GameResult(OutcomeOf(ev.winMarkers > 0, ev.lossMarkers > 0, ev.tieMarkers > 0),
                                   Some(LabelScore(LabelText(ev))))
    ensures g.status == Upcoming ==> g.kickoff == SafeText(ev.resultLabel)
    ensures g.status == Tbd ==> g.result == None && g.kickoff == None
    ensures g.nebraskaLogoUrl == (if |ev.imageWrappers| >= 1 then GetImgSrc(ev.imageWrappers[0]) else None)
    ensures g.opponentLogoUrl == (if |ev.imageWrappers| >= 2 then GetImgSrc(ev.imageWrappers[1]) else None)
    ensures g.dividerText == SafeText(ev.divider)
    ensures g.opponentName == SafeText(ev.opponentName)
    ensures g.location == CleanSpace(SafeText(ev.location))
    ensures g.tvNetworkLogoUrl == GetImgSrc(ev.tvLogo)
    ensures g.links == Links(ev.anchors)
  {
    var status, result, kickoff := ClassifyResult(ev);
    var nebraskaLogoUrl, opponentLogoUrl := Logos(ev.imageWrappers);
    var location := CleanSpace(SafeText(ev.location));
    var tvNetworkLogoUrl := if |ev.tvLogo| > 0 then GetImgSrc(ev.tvLogo) else None;
    var links := CollectLinks(ev.anchors);
    g := GameRecord(SafeText(ev.venueType), SafeText(ev.weekday), SafeText(ev.dateLabel),
                    status, result, kickoff,
                    SafeText(ev.divider), nebraskaLogoUrl, opponentLogoUrl, SafeText(ev.opponentName),
                    location, tvNetworkLogoUrl, links);
  }
}
