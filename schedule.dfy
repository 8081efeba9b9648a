/**
 * The schedule record both scrapers produce for one game, and the pieces of
 * logic they share: the result letter, making a link absolute, collapsing
 * whitespace, and keeping the links that have a target.
 */
module Schedule {
  import opened Wrappers
  import opened Text

  /** "tbd", "upcoming" or "final". */
  datatype Status = Tbd | Upcoming | Final

  /** "W", "L" or "T". */
  datatype Outcome = W | L | T

  /** `{"outcome": ..., "score": ...}`. */
  datatype GameResult = GameResult(outcome: Outcome, score: Option<string>)

  /** `{"title": ..., "href": ...}`. */
  datatype Link = Link(title: Option<string>, href: string)

  /** The dictionary one `parse_event` returns, field for field. */
  datatype GameRecord = GameRecord(
    venueType: Option<string>,
    weekday: Option<string>,
    dateText: Option<string>,
    status: Status,
    result: Option<GameResult>,
    kickoff: Option<string>,
    dividerText: Option<string>,
    nebraskaLogoUrl: Option<string>,
    opponentLogoUrl: Option<string>,
    opponentName: Option<string>,
    location: Option<string>,
    tvNetworkLogoUrl: Option<string>,
    links: seq<Link>)

  const SiteRoot: string := "https://huskers.com"

  /** The result letter of a game with markers: a win marker beats a loss marker, which beats a tie marker. */
  function OutcomeOf(win: bool, loss: bool, tie: bool): (r: Outcome)
    ensures r == W <==> win
    ensures r == L <==> !win && loss
    ensures r == T <==> !win && !loss
  {
    if win then W else if loss then L else T
  }

  /** A site-relative link (one starting with '/') is put under the site root; any other is kept. */
  function Absolutize(href: string): string {
    if StartsWith(href, "/") then SiteRoot + href else href
  }

  /**
   * An absolutized link is never site-relative, keeps the original link as its
   * tail, is unchanged exactly when it was not relative, and absolutizing twice
   * is absolutizing once.
   */
  lemma AbsolutizeSpec(href: string)
    ensures !StartsWith(Absolutize(href), "/")
    ensures Absolutize(href) == href || Absolutize(href) == SiteRoot + href
    ensures Absolutize(href) == href <==> !StartsWith(href, "/")
    ensures Absolutize(Absolutize(href)) == Absolutize(href)
    ensures href != "" ==> Absolutize(href) != ""
  {
    if StartsWith(href, "/") {
      assert (SiteRoot + href)[0] == 'h';
    }
  }

  /**
   * `clean_space` / `clean`: no text stays no text; text has its whitespace
   * runs collapsed to single spaces and its ends trimmed, with the same words
   * and the same non-space characters.
   */
  function CleanSpace(s: Option<string>): (r: Option<string>)
    ensures r.Some? <==> s.Some?
    ensures r.Some? ==> Normalized(r.value)
    ensures r.Some? ==> NonSpaces(r.value) == NonSpaces(s.value)
    ensures r.Some? ==> Split(r.value) == Split(s.value)
  {
    match s
    case None => None
    case Some(x) =>
      NormalizeSpaceNormalized(x);
      NormalizeSpaceKeepsText(x);
      SplitJoin(Split(x));
      Some(NormalizeSpace(x))
  }

  lemma CleanSpaceIdempotent(s: Option<string>)
    ensures CleanSpace(CleanSpace(s)) == CleanSpace(s)
  {
    if s.Some? {
      NormalizeSpaceIdempotent(s.value);
    }
  }

  function OptionSeq(o: Option<Link>): seq<Link> {
    if o.Some? then [o.value] else []
  }

  /** The links of the anchors `xs` in order, skipping each anchor for which `f` gives no link. */
  function Keep<A>(xs: seq<A>, f: A -> Option<Link>): seq<Link> {
    if xs == [] then []
    else Keep(xs[..|xs| - 1], f) + OptionSeq(f(xs[|xs| - 1]))
  }

  /** The positions of the anchors for which `f` gives a link, in increasing order. */
  function KeptAt<A>(xs: seq<A>, f: A -> Option<Link>): seq<nat> {
    if xs == [] then []
    else KeptAt(xs[..|xs| - 1], f) + (if f(xs[|xs| - 1]).Some? then [|xs| - 1] else [])
  }

  /** One more anchor adds its link, if it has one, at the end. */
  lemma KeepSnoc<A>(xs: seq<A>, i: nat, f: A -> Option<Link>)
    requires i < |xs|
    ensures Keep(xs[..i + 1], f) == Keep(xs[..i], f) + OptionSeq(f(xs[i]))
  {
    assert xs[..i + 1][..i] == xs[..i];
  }

  lemma {:induction false} KeepLength<A>(xs: seq<A>, f: A -> Option<Link>)
    ensures |Keep(xs, f)| == |KeptAt(xs, f)|
  {
    if xs != [] {
      KeepLength(xs[..|xs| - 1], f);
    }
  }

  /** The kept positions are positions of `xs`, in strictly increasing order. */
  lemma {:induction false} KeptAtIncreasing<A>(xs: seq<A>, f: A -> Option<Link>)
    ensures forall k :: 0 <= k < |KeptAt(xs, f)| ==> KeptAt(xs, f)[k] < |xs|
    ensures forall k, m :: 0 <= k < m < |KeptAt(xs, f)| ==> KeptAt(xs, f)[k] < KeptAt(xs, f)[m]
  {
    if xs != [] {
      KeptAtIncreasing(xs[..|xs| - 1], f);
    }
  }

  /** A position is kept exactly when its anchor gives a link. */
  lemma {:induction false} KeptAtMembers<A>(xs: seq<A>, f: A -> Option<Link>)
    ensures forall i :: 0 <= i < |xs| ==> (f(xs[i]).Some? <==> i in KeptAt(xs, f))
  {
    if xs != [] {
      var ys := xs[..|xs| - 1];
      KeptAtMembers(ys, f);
      KeptAtIncreasing(ys, f);
      forall i | 0 <= i < |xs|
        ensures f(xs[i]).Some? <==> i in KeptAt(xs, f)
      {
        if i < |ys| {
          assert ys[i] == xs[i];
          assert |xs| - 1 !in KeptAt(ys, f);
        }
      }
    }
  }

  /** The k-th link is the link of the anchor at the k-th kept position. */
  lemma {:induction false} KeepAtPositions<A>(xs: seq<A>, f: A -> Option<Link>)
    ensures |Keep(xs, f)| == |KeptAt(xs, f)|
    ensures forall k :: 0 <= k < |KeptAt(xs, f)| ==>
              KeptAt(xs, f)[k] < |xs| && f(xs[KeptAt(xs, f)[k]]) == Some(Keep(xs, f)[k])
  {
    KeepLength(xs, f);
    KeptAtIncreasing(xs, f);
    if xs != [] {
      var ys := xs[..|xs| - 1];
      KeepAtPositions(ys, f);
      KeptAtIncreasing(ys, f);
      forall k | 0 <= k < |KeptAt(xs, f)|
        ensures f(xs[KeptAt(xs, f)[k]]) == Some(Keep(xs, f)[k])
      {
        if k < |KeptAt(ys, f)| {
          var i := KeptAt(ys, f)[k];
          assert KeptAt(xs, f)[k] == i;
          assert Keep(xs, f)[k] == Keep(ys, f)[k];
          assert ys[i] == xs[i];
        }
      }
    }
  }

  /**
   * `Keep` holds exactly one link per anchor that gives one, in document order:
   * its k-th link is the link of the k-th such anchor.
   */
  lemma KeepExactly<A>(xs: seq<A>, f: A -> Option<Link>)
    ensures |Keep(xs, f)| == |KeptAt(xs, f)|
    ensures forall k :: 0 <= k < |KeptAt(xs, f)| ==>
              KeptAt(xs, f)[k] < |xs| && f(xs[KeptAt(xs, f)[k]]) == Some(Keep(xs, f)[k])
    ensures forall i :: 0 <= i < |xs| ==> (f(xs[i]).Some? <==> i in KeptAt(xs, f))
    ensures forall k, m :: 0 <= k < m < |KeptAt(xs, f)| ==> KeptAt(xs, f)[k] < KeptAt(xs, f)[m]
  {
    KeepAtPositions(xs, f);
    KeptAtMembers(xs, f);
    KeptAtIncreasing(xs, f);
  }

  lemma ScoreLabelLiterals()
    ensures NoSpace("W") && NoSpace("27-14") && '-' in "27-14" && '-' !in "W"
  {
  }

  lemma ScoreLabelConcat()
    ensures "W 27-14" == "W" + " " + "27-14"
  {
  }

  /** The words of the result label "W 27-14". */
  lemma ScoreLabelWords()
    ensures NoSpace("W") && NoSpace("27-14") && '-' in "27-14" && '-' !in "W"
    ensures "W 27-14" == "W" + " " + "27-14"
    ensures Split("W 27-14") == ["W", "27-14"]
  {
    ScoreLabelLiterals();
    ScoreLabelConcat();
    SplitTwoWords("W", "27-14");
  }
}
