/**
 * The static-HTML scraper: one schedule event of the fetched page, already
 * picked apart by the CSS selectors, is turned into a schedule record.
 */
module StaticScraper {
  import opened Wrappers
  import opened Text
  import opened Schedule

  /**
   * A parsed HTML element: the text strings below it in document order and its
   * attributes.
   */
  datatype Node = Node(strings: seq<string>, attrs: map<string, string>)

  /** The strings of a node after stripping, with the blank ones dropped. */
  function StrippedStrings(strings: seq<string>): (r: seq<string>)
    ensures forall i :: 0 <= i < |r| ==> r[i] != [] && !IsSpace(r[i][0]) && !IsSpace(r[i][|r[i]| - 1])
  {
    if strings == [] then []
    else
      var t := Strip(strings[0]);
      (if t == [] then [] else [t]) + StrippedStrings(strings[1..])
  }

  /** `node.get_text(sep, strip=True)`. */
  function GetText(n: Node, sep: string): string {
    Join(sep, StrippedStrings(n.strings))
  }

  /** `text_or_none(node)`: the stripped text of a node, or nothing when there is no node. */
  function TextOrNone(node: Option<Node>): Option<string> {
    if node.Some? then Some(GetText(node.value, "")) else None
  }

  /** `attr_or_none(node, attr)`: the attribute's value when there is a node that has it. */
  function AttrOrNone(node: Option<Node>, attr: string): (r: Option<string>)
    ensures r.Some? <==> node.Some? && attr in node.value.attrs
    ensures r.Some? ==> r.value == node.value.attrs[attr]
  {
    if node.Some? && attr in node.value.attrs then Some(node.value.attrs[attr]) else None
  }

  function Concat(ss: seq<string>): string {
    if ss == [] then [] else ss[0] + Concat(ss[1..])
  }

  lemma {:induction false} StrippedStringsNonSpaces(strings: seq<string>)
    ensures NonSpaces(Concat(StrippedStrings(strings))) == NonSpaces(Concat(strings))
  {
    if strings != [] {
      var t := Strip(strings[0]);
      var rest := StrippedStrings(strings[1..]);
      StrippedStringsNonSpaces(strings[1..]);
      StripNonSpaces(strings[0]);
      NonSpacesAppend(strings[0], Concat(strings[1..]));
      if t == [] {
        assert StrippedStrings(strings) == rest;
      } else {
        assert StrippedStrings(strings) == [t] + rest;
        assert Concat([t] + rest) == t + Concat(rest);
        NonSpacesAppend(t, Concat(rest));
      }
    }
  }

  lemma {:induction false} JoinNonSpaces(sep: string, ws: seq<string>)
    requires NonSpaces(sep) == []
    ensures NonSpaces(Join(sep, ws)) == NonSpaces(Concat(ws))
  {
    if |ws| == 1 {
      assert Concat(ws) == ws[0] + Concat([]) == ws[0];
    } else if |ws| > 1 {
      JoinNonSpaces(sep, ws[1..]);
      NonSpacesAppend(ws[0] + sep, Join(sep, ws[1..]));
      NonSpacesAppend(ws[0], sep);
      NonSpacesAppend(ws[0], Concat(ws[1..]));
    }
  }

  lemma {:induction false} JoinEnds(sep: string, ws: seq<string>)
    requires ws != [] && forall i :: 0 <= i < |ws| ==> ws[i] != []
    ensures Join(sep, ws) != [] && Join(sep, ws)[0] == ws[0][0]
    ensures Join(sep, ws)[|Join(sep, ws)| - 1] == ws[|ws| - 1][|ws[|ws| - 1]| - 1]
  {
    if |ws| > 1 {
      JoinEnds(sep, ws[1..]);
    }
  }

  /**
   * The text of a node, joined with a space or with nothing, keeps every
   * non-space character of the node's strings, in order, and has no
   * whitespace at either end.
   */
  lemma GetTextSpec(n: Node, sep: string)
    requires sep == "" || sep == " "
    ensures NonSpaces(GetText(n, sep)) == NonSpaces(Concat(n.strings))
    ensures GetText(n, sep) == [] || (!IsSpace(GetText(n, sep)[0]) && !IsSpace(GetText(n, sep)[|GetText(n, sep)| - 1]))
  {
    var ws := StrippedStrings(n.strings);
    assert NonSpaces(sep) == [] by {
      if sep == " " {
        assert NonSpaces(sep) == [] + NonSpaces(sep[1..]);
      }
    }
    JoinNonSpaces(sep, ws);
    StrippedStringsNonSpaces(n.strings);
    if ws != [] {
      JoinEnds(sep, ws);
    }
  }

  /**
   * `text_or_none` gives text exactly when there is a node. That text keeps
   * every non-space character of the node's strings, in order, and has no
   * whitespace at either end.
   */
  lemma TextOrNoneSpec(node: Option<Node>)
    ensures TextOrNone(node).Some? <==> node.Some?
    ensures node.Some? ==> NonSpaces(TextOrNone(node).value) == NonSpaces(Concat(node.value.strings))
    ensures node.Some? ==>
      (TextOrNone(node).value == [] ||
       (!IsSpace(TextOrNone(node).value[0]) && !IsSpace(TextOrNone(node).value[|TextOrNone(node).value| - 1])))
  {
    if node.Some? {
      GetTextSpec(node.value, "");
    }
  }

  /** Dropping the blank strings and stripping the others keeps every word, in order. */
  lemma {:induction false} StrippedStringsWords(strings: seq<string>)
    ensures SplitEach(StrippedStrings(strings)) == SplitEach(strings)
  {
    if strings != [] {
      var t := Strip(strings[0]);
      var rest := StrippedStrings(strings[1..]);
      StrippedStringsWords(strings[1..]);
      SplitStrip(strings[0]);
      assert SplitEach(strings) == Split(strings[0]) + SplitEach(strings[1..]);
      if t == [] {
        SplitOfSpaces([]);
        assert StrippedStrings(strings) == rest;
      } else {
        assert StrippedStrings(strings) == [t] + rest;
        SplitEachCons(t, rest);
      }
    }
  }

  lemma SplitEachCons(t: string, rest: seq<string>)
    ensures SplitEach([t] + rest) == Split(t) + SplitEach(rest)
  {
    assert ([t] + rest)[0] == t && ([t] + rest)[1..] == rest;
  }

  /**
   * `get_text(" ", strip=True)` keeps the words of different strings apart: its
   * words are those of the node's strings, one string after another.
   */
  lemma GetTextWords(n: Node)
    ensures Split(GetText(n, " ")) == SplitEach(n.strings)
  {
    SplitJoinSpaced(StrippedStrings(n.strings));
    StrippedStringsWords(n.strings);
  }

  /** The nodes of a ".schedule-event-item-result" block that `parse_event` looks at. */
  datatype ResultBlock = ResultBlock(
    win: bool,                 // a "__win" marker is present
    loss: bool,                // a "__loss" marker is present
    tie: bool,                 // a "__tie" marker is present
    scoreLabel: Option<Node>,  // the first "__label" or "__wrapper" node
    timeLabel: Option<Node>)   // the first "__label" node

  /** A ".schedule-event-bottom__link" anchor and its ".schedule-event-item-links__title" node. */
  datatype Anchor = Anchor(node: Node, title: Option<Node>)

  /** The nodes of one schedule event that `parse_event` selects. */
  datatype Event = Event(
    venueType: Option<Node>,
    weekday: Option<Node>,
    dateLabel: Option<Node>,
    resultBlock: Option<ResultBlock>,
    imageWrappers: seq<Option<Node>>,  // the "img" inside each image wrapper, in order
    divider: Option<Node>,
    opponentName: Option<Node>,
    location: Option<Node>,
    bottomLinkImage: Option<Node>,
    anchors: seq<Anchor>)

  /** The tokens of `ws` that contain a hyphen, in order. */
  function Hyphenated(ws: seq<string>): seq<string> {
    if ws == [] then []
    else Hyphenated(ws[..|ws| - 1]) + (if '-' in ws[|ws| - 1] then [ws[|ws| - 1]] else [])
  }

  /**
   * There is a hyphenated token exactly when some token holds a hyphen, and
   * the last hyphenated token is the last token of `ws` that holds one.
   */
  lemma {:induction false} HyphenatedLast(ws: seq<string>)
    ensures Hyphenated(ws) != [] <==> exists i :: 0 <= i < |ws| && '-' in ws[i]
    ensures Hyphenated(ws) != [] ==>
      var h := Hyphenated(ws)[|Hyphenated(ws)| - 1];
      '-' in h && exists i :: 0 <= i < |ws| && ws[i] == h && forall j :: i < j < |ws| ==> '-' !in ws[j]
  {
    if ws != [] {
      var n := |ws| - 1;
      var ys := ws[..n];
      HyphenatedLast(ys);
      assert forall i :: 0 <= i < n ==> ys[i] == ws[i];
      if '-' !in ws[n] && Hyphenated(ys) != [] {
        var h := Hyphenated(ys)[|Hyphenated(ys)| - 1];
        var i :| 0 <= i < n && ys[i] == h && forall j :: i < j < n ==> '-' !in ys[j];
        assert ws[i] == h && forall j :: i < j < |ws| ==> '-' !in ws[j];
      }
    }
  }

  /** The score text of a normalised result label: its last hyphenated token, else the whole label. */
  function LabelScore(t: string): string {
    var hs := Hyphenated(Split(t));
    if hs != [] then hs[|hs| - 1] else t
  }

  /** The score of a finished game: nothing without a label, else the score text of the label's normalised text. */
  function ResultScore(scoreLabel: Option<Node>): Option<string> {
    if scoreLabel.None? then None else Some(LabelScore(NormalizeSpace(GetText(scoreLabel.value, " "))))
  }

  /**
   * The score is the last whitespace-separated token of the label that holds a
   * hyphen; when no token holds one, it is the whole label.
   */
  lemma LabelScoreSpec(t: string)
    ensures (exists i :: 0 <= i < |Split(t)| && '-' in Split(t)[i]) ==>
      '-' in LabelScore(t) &&
      exists i :: 0 <= i < |Split(t)| && Split(t)[i] == LabelScore(t) &&
        forall j :: i < j < |Split(t)| ==> '-' !in Split(t)[j]
    ensures (forall i :: 0 <= i < |Split(t)| ==> '-' !in Split(t)[i]) ==> LabelScore(t) == t
  {
    HyphenatedLast(Split(t));
  }

  /** A label of a word without a hyphen and a word with one scores as the second word. */
  lemma LabelScoreTwoWords(a: string, b: string)
    requires a != [] && NoSpace(a) && b != [] && NoSpace(b)
    requires '-' !in a && '-' in b
    ensures LabelScore(a + " " + b) == b
  {
    SplitTwoWords(a, b);
    assert [a, b][..1] == [a];
    assert [a][..0] == [];
    assert Hyphenated([a]) == [];
  }

  /** The label "W 27-14" gives the score "27-14". */
  lemma LabelScoreExample()
    ensures LabelScore("W 27-14") == "27-14"
  {
    ScoreLabelWords();
    LabelScoreTwoWords("W", "27-14");
  }

  /** Whether the result block shows a win, a loss or a tie marker. */
  predicate Finished(ev: Event) {
    ev.resultBlock.Some? && (ev.resultBlock.value.win || ev.resultBlock.value.loss || ev.resultBlock.value.tie)
  }

  /** The kickoff text of an unfinished game, when its time label has any. */
  predicate HasKickoff(ev: Event) {
    ev.resultBlock.Some? && !Finished(ev) &&
    TextOrNone(ev.resultBlock.value.timeLabel).Some? && TextOrNone(ev.resultBlock.value.timeLabel).value != ""
  }

  /** The link of one anchor: only an anchor with a non-empty href gives one. */
  function LinkOf(a: Anchor): (r: Option<Link>)
    ensures r.Some? <==> "href" in a.node.attrs && a.node.attrs["href"] != ""
    ensures r.Some? ==> r.value.href == Absolutize(a.node.attrs["href"])
    ensures r.Some? ==> r.value.title == Some(if a.title.Some? then GetText(a.title.value, "") else GetText(a.node, " "))
  {
    var title := if a.title.Some? then GetText(a.title.value, "") else GetText(a.node, " ");
    var href := AttrOrNone(Some(a.node), "href");
    if href.Some? && href.value != "" then Some(Link(Some(title), Absolutize(href.value))) else None
  }

  function Links(anchors: seq<Anchor>): seq<Link> {
    Keep(anchors, LinkOf)
  }

  /**
   * The links are those of the anchors with a non-empty href, one each and in
   * document order, and none of them is site-relative.
   */
  lemma LinksSpec(anchors: seq<Anchor>)
    ensures |Links(anchors)| == |KeptAt(anchors, LinkOf)|
    ensures forall i :: 0 <= i < |anchors| ==>
              ("href" in anchors[i].node.attrs && anchors[i].node.attrs["href"] != "" <==> i in KeptAt(anchors, LinkOf))
    ensures forall k, m :: 0 <= k < m < |KeptAt(anchors, LinkOf)| ==> KeptAt(anchors, LinkOf)[k] < KeptAt(anchors, LinkOf)[m]
    ensures forall k :: 0 <= k < |Links(anchors)| ==>
              KeptAt(anchors, LinkOf)[k] < |anchors| &&
              Links(anchors)[k] == LinkOf(anchors[KeptAt(anchors, LinkOf)[k]]).value &&
              !StartsWith(Links(anchors)[k].href, "/")
  {
    KeepExactly(anchors, LinkOf);
    forall k | 0 <= k < |Links(anchors)|
      ensures !StartsWith(Links(anchors)[k].href, "/")
    {
      var a := anchors[KeptAt(anchors, LinkOf)[k]];
      AbsolutizeSpec(a.node.attrs["href"]);
    }
  }

  /** The result part of `parse_event`: the status, the result of a finished game and the kickoff of an upcoming one. */
  method ClassifyResult(ev: Event) returns (status: Status, result: Option<GameResult>, kickoff: Option<string>)
    ensures status == Final <==> Finished(ev)
    ensures status == Upcoming <==> HasKickoff(ev)
    ensures result.Some? <==> status == Final
    ensures kickoff.Some? <==> status == Upcoming
    ensures status == Final ==>
      var rb := ev.resultBlock.value;
      result.value == GameResult(OutcomeOf(rb.win, rb.loss, rb.tie), ResultScore(rb.scoreLabel))
    ensures status == Upcoming ==> kickoff == TextOrNone(ev.resultBlock.value.timeLabel)
  {
    status := Tbd;
    result := None;
    kickoff := None;
    if ev.resultBlock.Some? {
      var rb := ev.resultBlock.value;
      if rb.win || rb.loss || rb.tie {
        status := Final;
        var outcome := if rb.win then W else if rb.loss then L else T;
        var score: Option<string> := None;
        if rb.scoreLabel.Some? {
          var t := NormalizeSpace(GetText(rb.scoreLabel.value, " "));
          var hs := Hyphenated(Split(t));
          score := Some(if hs != [] then hs[|hs| - 1] else t);
        }
        result := Some(GameResult(outcome, score));
      } else {
        var kickoffText := TextOrNone(rb.timeLabel);
        if kickoffText.Some? && kickoffText.value != "" {
          status := Upcoming;
          kickoff := kickoffText;
        }
      }
    }
  }

  /** The logo part of `parse_event`: the first image wrapper is Nebraska's, the second the opponent's. */
  method Logos(imageWrappers: seq<Option<Node>>) returns (nebraska: Option<string>, opponent: Option<string>)
    ensures nebraska == (if |imageWrappers| >= 1 then AttrOrNone(imageWrappers[0], "src") else None)
    ensures opponent == (if |imageWrappers| >= 2 then AttrOrNone(imageWrappers[1], "src") else None)
  {
    nebraska := None;
    opponent := None;
    if |imageWrappers| > 0 {
      nebraska := AttrOrNone(imageWrappers[0], "src");
      if |imageWrappers| >= 2 {
        opponent := AttrOrNone(imageWrappers[1], "src");
      }
    }
  }

  /** The link loop of `parse_event`. */
  method CollectLinks(anchors: seq<Anchor>) returns (links: seq<Link>)
    ensures links == Links(anchors)
  {
    links := [];
    for i := 0 to |anchors|
      invariant links == Links(anchors[..i])
    {
      var a := anchors[i];
      var title := if a.title.Some? then GetText(a.title.value, "") else GetText(a.node, " ");
      var href := AttrOrNone(Some(a.node), "href");
      if href.Some? && href.value != "" {
        var h := href.value;
        if StartsWith(h, "/") {
          h := SiteRoot + h;
        }
        links := links + [Link(Some(title), h)];
      }
      KeepSnoc(anchors, i, LinkOf);
    }
    assert anchors[..|anchors|] == anchors;
  }

  /** `parse_event(div)`. */
  method ParseEvent(ev: Event) returns (g: GameRecord)
    ensures g.venueType == TextOrNone(ev.venueType)
    ensures g.weekday == TextOrNone(ev.weekday)
    ensures g.dateText == TextOrNone(ev.dateLabel)
    ensures g.status == Final <==> Finished(ev)
    ensures g.status == Upcoming <==> HasKickoff(ev)
    ensures g.result.Some? <==> g.status == Final
    ensures g.kickoff.Some? <==> g.status == Upcoming
    ensures g.status == Final ==>
      var rb := ev.resultBlock.value;
      g.result.value == GameResult(OutcomeOf(rb.win, rb.loss, rb.tie), ResultScore(rb.scoreLabel))
    ensures g.status == Upcoming ==> g.kickoff == TextOrNone(ev.resultBlock.value.timeLabel)
    ensures ev.resultBlock.None? ==> g.status == Tbd && g.result == None && g.kickoff == None
    ensures g.nebraskaLogoUrl == (if |ev.imageWrappers| >= 1 then AttrOrNone(ev.imageWrappers[0], "src") else None)
    ensures g.opponentLogoUrl == (if |ev.imageWrappers| >= 2 then AttrOrNone(ev.imageWrappers[1], "src") else None)
    ensures g.dividerText == TextOrNone(ev.divider)
    ensures g.opponentName == TextOrNone(ev.opponentName)
    ensures g.location == (if ev.location.Some? then CleanSpace(Some(GetText(ev.location.value, " "))) else None)
    ensures g.tvNetworkLogoUrl == AttrOrNone(ev.bottomLinkImage, "src")
    ensures g.links == Links(ev.anchors)
  {
    var status, result, kickoff := ClassifyResult(ev);
    var nebraskaLogoUrl, opponentLogoUrl := Logos(ev.imageWrappers);

    var location: Option<string> := None;
    if ev.location.Some? {
      location := CleanSpace(Some(GetText(ev.location.value, " ")));
    }

    var tvNetworkLogoUrl: Option<string> := None;
    if ev.bottomLinkImage.Some? {
      tvNetworkLogoUrl := AttrOrNone(ev.bottomLinkImage, "src");
    }

    var links := CollectLinks(ev.anchors);

    g := GameRecord(TextOrNone(ev.venueType), TextOrNone(ev.weekday), TextOrNone(ev.dateLabel),
                    status, result, kickoff,
                    TextOrNone(ev.divider), nebraskaLogoUrl, opponentLogoUrl, TextOrNone(ev.opponentName),
                    location, tvNetworkLogoUrl, links);
  }
}
