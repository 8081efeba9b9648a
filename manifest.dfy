/**
 * The stadium manifest (data/build_stadium_manifest.py, lines 43-70 of `main`):
 * one record per venue slug, first game wins; the image files present for
 * each slug; the records split into `found` and `missing`, each sorted by slug.
 *
 * The file system is the set of existing paths, written as `Path.as_posix()`
 * gives them relative to the working directory.
 */
module Manifest {
  import opened Wrappers
  import opened Slugs
  import Text

  /** The two fields of a scraped game that the manifest reads. */
  datatype Game = Game(location: Option<string>, opponentName: Option<string>)

  /** One manifest entry, the dictionary built at lines 51-59. */
  datatype StadiumRecord = StadiumRecord(
    slug: string,
    locationRaw: Option<string>,
    city: Option<string>,
    stadium: Option<string>,
    exampleGame: Option<string>,
    filesPresent: seq<string>,
    suggestedFilenames: seq<string>)

  /** The two lists written to the manifest. */
  datatype Lists = Lists(found: seq<StadiumRecord>, missing: seq<StadiumRecord>)

  const StadiumDir: string := "stadiums"
  const Extensions: seq<string> := [".jpg", ".png", ".webp"]

  function Suggested(slug: string): seq<string> {
    [slug + ".jpg", slug + ".png", slug + ".webp"]
  }

  /** `(STADIUM_DIR / f"{slug}{ext}").as_posix()`. */
  function ImagePath(slug: string, ext: string): string {
    StadiumDir + "/" + slug + ext
  }

  /** The slug `parse_location` gives a game's location, `""` when it gives none. */
  function GameSlug(g: Game): string {
    ParseLocation(g.location).slug.GetOr("")
  }

  /** The record a game would seed, or None when the game is skipped for want of a slug. */
  function Seed(g: Game): (r: Option<StadiumRecord>)
    ensures r.Some? ==> Fresh(r.value)
  {
    var l := ParseLocation(g.location);
    ParseLocationShape(g.location);
    if l.slug.None? || l.slug.value == "" then None
    else
      var slug := l.slug.value;
      Some(StadiumRecord(slug, g.location, l.city, l.stadium, g.opponentName, [], Suggested(slug)))
  }

  /** A record as the de-duplication loop creates it: a slug, no files yet, the three suggested names. */
  predicate Fresh(r: StadiumRecord) {
    IsSlug(r.slug) && r.filesPresent == [] && r.suggestedFilenames == Suggested(r.slug)
  }

  /** A game seeds a record exactly when its location yields a non-empty slug, and the record carries that slug. */
  lemma SeedSlug(g: Game)
    ensures Seed(g).Some? <==> GameSlug(g) != ""
    ensures Seed(g).Some? ==> Seed(g).value.slug == GameSlug(g)
    ensures Seed(g).Some? ==> Seed(g).value.locationRaw == g.location && Seed(g).value.exampleGame == g.opponentName
  {
  }

  predicate HasSlug(rs: seq<StadiumRecord>, k: string) {
    exists j :: 0 <= j < |rs| && rs[j].slug == k
  }

  predicate DistinctSlugs(rs: seq<StadiumRecord>) {
    forall i, j :: 0 <= i < j < |rs| ==> rs[i].slug != rs[j].slug
  }

  /** The record each game would seed, game by game. */
  function Seeds(gs: seq<Game>): (r: seq<Option<StadiumRecord>>)
    ensures |r| == |gs|
    ensures forall i :: 0 <= i < |gs| ==> r[i] == Seed(gs[i])
  {
    seq(|gs|, i requires 0 <= i < |gs| => Seed(gs[i]))
  }

  lemma SeedsSnoc(gs: seq<Game>, g: Game)
    ensures Seeds(gs + [g]) == Seeds(gs) + [Seed(g)]
  {
    var a, b := Seeds(gs + [g]), Seeds(gs) + [Seed(g)];
    forall i | 0 <= i < |a|
      ensures a[i] == b[i]
    {
      if i < |gs| {
        assert (gs + [g])[i] == gs[i];
      }
    }
  }

  /** The de-duplication loop over the seeds: a seed whose slug is already recorded is dropped. */
  function Dedup(seeds: seq<Option<StadiumRecord>>): seq<StadiumRecord> {
    if seeds == [] then []
    else
      var v := Dedup(seeds[..|seeds| - 1]);
      match seeds[|seeds| - 1]
      case None => v
      case Some(r) => if HasSlug(v, r.slug) then v else v + [r]
  }

  /** `uniq.values()` after the de-duplication loop over `gs`, in insertion order. */
  function Venues(gs: seq<Game>): seq<StadiumRecord> {
    Dedup(Seeds(gs))
  }

  /** Some seed has slug `k`. */
  predicate SomeSeedHas(seeds: seq<Option<StadiumRecord>>, k: string) {
    exists i :: 0 <= i < |seeds| && seeds[i].Some? && seeds[i].value.slug == k
  }

  /** Seed `i` is the first one with its slug. */
  predicate FirstWithSlug(seeds: seq<Option<StadiumRecord>>, i: int)
    requires 0 <= i < |seeds|
  {
    seeds[i].Some? && forall e :: 0 <= e < i ==> seeds[e].None? || seeds[e].value.slug != seeds[i].value.slug
  }

  lemma SomeSeedHasSnoc(seeds: seq<Option<StadiumRecord>>, x: Option<StadiumRecord>, k: string)
    ensures SomeSeedHas(seeds + [x], k) <==> SomeSeedHas(seeds, k) || (x.Some? && x.value.slug == k)
  {
    var t := seeds + [x];
    if SomeSeedHas(t, k) && !(x.Some? && x.value.slug == k) {
      var i :| 0 <= i < |t| && t[i].Some? && t[i].value.slug == k;
      assert seeds[i] == t[i];
    }
    if SomeSeedHas(seeds, k) {
      var i :| 0 <= i < |seeds| && seeds[i].Some? && seeds[i].value.slug == k;
      assert t[i] == seeds[i];
    }
    if x.Some? && x.value.slug == k {
      assert t[|seeds|] == x;
    }
  }

  lemma DedupSnoc(seeds: seq<Option<StadiumRecord>>, x: Option<StadiumRecord>)
    ensures Dedup(seeds + [x]) ==
      if x.Some? && !HasSlug(Dedup(seeds), x.value.slug) then Dedup(seeds) + [x.value] else Dedup(seeds)
  {
    assert (seeds + [x])[..|seeds|] == seeds;
  }

  lemma HasSlugSnoc(v: seq<StadiumRecord>, r: StadiumRecord, k: string)
    ensures HasSlug(v + [r], k) <==> HasSlug(v, k) || r.slug == k
  {
    if HasSlug(v, k) {
      var j :| 0 <= j < |v| && v[j].slug == k;
      assert (v + [r])[j] == v[j];
    }
    if HasSlug(v + [r], k) && r.slug != k {
      var j :| 0 <= j < |v + [r]| && (v + [r])[j].slug == k;
      assert v[j] == (v + [r])[j];
    }
    if r.slug == k {
      assert (v + [r])[|v|] == r;
    }
  }

  /** The recorded slugs are exactly the slugs of the seeds, and none is recorded twice. */
  lemma {:induction false} DedupSlugs(seeds: seq<Option<StadiumRecord>>)
    ensures DistinctSlugs(Dedup(seeds))
    ensures forall k :: HasSlug(Dedup(seeds), k) <==> SomeSeedHas(seeds, k)
  {
    if seeds != [] {
      var q, x := seeds[..|seeds| - 1], seeds[|seeds| - 1];
      assert seeds == q + [x];
      DedupSlugs(q);
      DedupSnoc(q, x);
      var v := Dedup(q);
      forall k
        ensures HasSlug(Dedup(seeds), k) <==> SomeSeedHas(seeds, k)
      {
        SomeSeedHasSnoc(q, x, k);
        if x.Some? && !HasSlug(v, x.value.slug) {
          HasSlugSnoc(v, x.value, k);
        }
      }
      if x.Some? && !HasSlug(v, x.value.slug) {
        var w := v + [x.value];
        forall i, j | 0 <= i < j < |w|
          ensures w[i].slug != w[j].slug
        {
          if j == |v| {
            assert w[i] == v[i];
          } else {
            assert w[i] == v[i] && w[j] == v[j];
          }
        }
      }
    }
  }

  /** Each record is the first seed with its slug; later seeds with that slug are dropped. */
  lemma {:induction false} DedupFirstWins(seeds: seq<Option<StadiumRecord>>)
    ensures forall j :: 0 <= j < |Dedup(seeds)| ==>
              exists i :: 0 <= i < |seeds| && FirstWithSlug(seeds, i) && Dedup(seeds)[j] == seeds[i].value
  {
    if seeds != [] {
      var q, x := seeds[..|seeds| - 1], seeds[|seeds| - 1];
      assert seeds == q + [x];
      DedupFirstWins(q);
      DedupSnoc(q, x);
      var v, w := Dedup(q), Dedup(seeds);
      forall j | 0 <= j < |w|
        ensures exists i :: 0 <= i < |seeds| && FirstWithSlug(seeds, i) && w[j] == seeds[i].value
      {
        if j < |v| {
          assert w[j] == v[j];
          var i :| 0 <= i < |q| && FirstWithSlug(q, i) && v[j] == q[i].value;
          FirstWithSlugPrefix(q, x, i);
          assert FirstWithSlug(seeds, i) && w[j] == seeds[i].value;
        } else {
          assert x.Some? && !HasSlug(v, x.value.slug) && w[j] == x.value;
          DedupSlugs(q);
          assert !SomeSeedHas(q, x.value.slug);
          forall e | 0 <= e < |q|
            ensures seeds[e].None? || seeds[e].value.slug != x.value.slug
          {
            assert seeds[e] == q[e];
          }
          assert FirstWithSlug(seeds, |q|);
        }
      }
    } else {
      assert Dedup(seeds) == [];
    }
  }

  lemma FirstWithSlugPrefix(q: seq<Option<StadiumRecord>>, x: Option<StadiumRecord>, i: int)
    requires 0 <= i < |q| && FirstWithSlug(q, i)
    ensures FirstWithSlug(q + [x], i) && (q + [x])[i] == q[i]
  {
    var t := q + [x];
    forall e | 0 <= e < i
      ensures t[e].None? || t[e].value.slug != t[i].value.slug
    {
      assert t[e] == q[e];
    }
  }

  /** Every recorded venue is as the loop created it. */
  lemma DedupFresh(seeds: seq<Option<StadiumRecord>>)
    requires forall i :: 0 <= i < |seeds| && seeds[i].Some? ==> Fresh(seeds[i].value)
    ensures forall j :: 0 <= j < |Dedup(seeds)| ==> Fresh(Dedup(seeds)[j])
  {
    DedupFirstWins(seeds);
  }

  /** Later seeds that are empty or carry an already recorded slug change nothing. */
  lemma {:induction false} LaterDuplicatesChangeNothing(seeds: seq<Option<StadiumRecord>>, later: seq<Option<StadiumRecord>>)
    requires forall i :: 0 <= i < |later| ==> later[i].None? || HasSlug(Dedup(seeds), later[i].value.slug)
    ensures Dedup(seeds + later) == Dedup(seeds)
  {
    if later == [] {
      assert seeds + later == seeds;
    } else {
      var front := later[..|later| - 1];
      LaterDuplicatesChangeNothing(seeds, front);
      assert seeds + later == (seeds + front) + [later[|later| - 1]];
      DedupSnoc(seeds + front, later[|later| - 1]);
    }
  }

  /** The paths of `exts` for `slug` that exist, in the order of `exts` (the inner probe loop). */
  function Probe(slug: string, exts: seq<string>, existing: set<string>): seq<string> {
    if exts == [] then []
    else
      var p := ImagePath(slug, exts[|exts| - 1]);
      Probe(slug, exts[..|exts| - 1], existing) + (if p in existing then [p] else [])
  }

  /** `a` is a subsequence of `b`: its elements occur in `b`, in the same order. */
  predicate Subsequence(a: seq<string>, b: seq<string>) {
    if a == [] then true
    else if b == [] then false
    else if a[|a| - 1] == b[|b| - 1] then Subsequence(a[..|a| - 1], b[..|b| - 1])
    else Subsequence(a, b[..|b| - 1])
  }

  /** The probed paths for `slug`, one per extension. */
  function Paths(slug: string, exts: seq<string>): (r: seq<string>)
    ensures |r| == |exts|
  {
    seq(|exts|, e requires 0 <= e < |exts| => ImagePath(slug, exts[e]))
  }

  lemma {:induction false} ProbeShape(slug: string, exts: seq<string>, existing: set<string>)
    ensures forall p :: p in Probe(slug, exts, existing) <==> p in existing && p in Paths(slug, exts)
    ensures Subsequence(Probe(slug, exts, existing), Paths(slug, exts))
  {
    if exts != [] {
      var front := exts[..|exts| - 1];
      ProbeShape(slug, front, existing);
      var all := Paths(slug, exts);
      assert all[..|all| - 1] == Paths(slug, front);
      assert all == Paths(slug, front) + [all[|all| - 1]];
      var p := ImagePath(slug, exts[|exts| - 1]);
      var r := Probe(slug, exts, existing);
      var rf := Probe(slug, front, existing);
      if p in existing {
        assert r == rf + [p];
        assert r[..|r| - 1] == rf;
      } else {
        assert r == rf;
        if rf != [] {
          assert rf[|rf| - 1] in rf;
        }
      }
    }
  }

  /** The suggested file names with the directory in front. */
  function Candidates(slug: string): seq<string> {
    seq(3, i requires 0 <= i < 3 => StadiumDir + "/" + Suggested(slug)[i])
  }

  lemma CandidatesArePaths(slug: string)
    ensures Candidates(slug) == Paths(slug, Extensions)
  {
    forall i | 0 <= i < 3
      ensures Candidates(slug)[i] == Paths(slug, Extensions)[i]
    {
      var d, e := StadiumDir + "/", Extensions[i];
      assert Suggested(slug)[i] == slug + e;
      Text.AppendAssoc4(d, slug, e, "");
      assert slug + e + "" == slug + e && d + slug + e + "" == d + slug + e;
    }
  }

  /**
   * The files recorded for a slug are the existing ones among "stadiums/<slug>.jpg",
   * ".png" and ".webp", in that order: a subsequence of the suggested names with
   * the directory in front.
   */
  lemma FilesPresentSpec(slug: string, existing: set<string>)
    ensures forall p :: p in Probe(slug, Extensions, existing) <==> p in existing && p in Candidates(slug)
    ensures Subsequence(Probe(slug, Extensions, existing), Candidates(slug))
  {
    ProbeShape(slug, Extensions, existing);
    CandidatesArePaths(slug);
  }

  /** A venue with its `files_present` filled in. */
  function WithFiles(r: StadiumRecord, existing: set<string>): StadiumRecord {
    r.(filesPresent := Probe(r.slug, Extensions, existing))
  }

  function AllWithFiles(rs: seq<StadiumRecord>, existing: set<string>): (r: seq<StadiumRecord>)
    ensures |r| == |rs|
  {
    seq(|rs|, i requires 0 <= i < |rs| => WithFiles(rs[i], existing))
  }

  /** `[r for r in rs if r["files_present"]]`. */
  function Found(rs: seq<StadiumRecord>): seq<StadiumRecord> {
    if rs == [] then []
    else (if rs[0].filesPresent != [] then [rs[0]] else []) + Found(rs[1..])
  }

  /** `[r for r in rs if not r["files_present"]]`. */
  function Missing(rs: seq<StadiumRecord>): seq<StadiumRecord> {
    if rs == [] then []
    else (if rs[0].filesPresent == [] then [rs[0]] else []) + Missing(rs[1..])
  }

  // Python compares strings code point by code point.

  /** `a < b` on Python strings. */
  predicate Below(a: string, b: string) {
    if a == [] then b != []
    else if b == [] then false
    else if a[0] != b[0] then a[0] < b[0]
    else Below(a[1..], b[1..])
  }

  predicate AtMost(a: string, b: string) {
    a == b || Below(a, b)
  }

  lemma {:induction false} BelowIrreflexive(a: string)
    ensures !Below(a, a)
  {
    if a != [] {
      BelowIrreflexive(a[1..]);
    }
  }

  lemma {:induction false} BelowTransitive(a: string, b: string, c: string)
    requires Below(a, b) && Below(b, c)
    ensures Below(a, c)
  {
    if a != [] && b != [] && c != [] && a[0] == b[0] && b[0] == c[0] {
      BelowTransitive(a[1..], b[1..], c[1..]);
    }
  }

  lemma {:induction false} BelowTotal(a: string, b: string)
    ensures a == b || Below(a, b) || Below(b, a)
  {
    if a != [] && b != [] && a[0] == b[0] {
      BelowTotal(a[1..], b[1..]);
      if a[1..] == b[1..] {
        assert a == [a[0]] + a[1..] && b == [b[0]] + b[1..];
      }
    }
  }

  predicate Sorted(rs: seq<StadiumRecord>) {
    forall i, j :: 0 <= i < j < |rs| ==> AtMost(rs[i].slug, rs[j].slug)
  }

  predicate StrictlySorted(rs: seq<StadiumRecord>) {
    forall i, j :: 0 <= i < j < |rs| ==> Below(rs[i].slug, rs[j].slug)
  }

  /** Inserts `r` before the first record whose slug is not below its own. */
  function Insert(r: StadiumRecord, rs: seq<StadiumRecord>): seq<StadiumRecord> {
    if rs == [] then [r]
    else if AtMost(r.slug, rs[0].slug) then [r] + rs
    else [rs[0]] + Insert(r, rs[1..])
  }

  /** `sorted(rs, key=lambda r: r["slug"])`, as a stable insertion sort. */
  function SortBySlug(rs: seq<StadiumRecord>): seq<StadiumRecord> {
    if rs == [] then [] else Insert(rs[0], SortBySlug(rs[1..]))
  }

  lemma {:induction false} InsertPerm(r: StadiumRecord, rs: seq<StadiumRecord>)
    ensures multiset(Insert(r, rs)) == multiset(rs) + multiset{r}
  {
    if rs != [] && !AtMost(r.slug, rs[0].slug) {
      InsertPerm(r, rs[1..]);
      assert rs == [rs[0]] + rs[1..];
    }
  }

  /** A lower bound of `r` and of every record of `rs` bounds every record of `Insert(r, rs)`. */
  lemma InsertBound(r: StadiumRecord, rs: seq<StadiumRecord>, lo: string)
    requires AtMost(lo, r.slug)
    requires forall i :: 0 <= i < |rs| ==> AtMost(lo, rs[i].slug)
    ensures forall i :: 0 <= i < |Insert(r, rs)| ==> AtMost(lo, Insert(r, rs)[i].slug)
  {
    var t := Insert(r, rs);
    InsertPerm(r, rs);
    forall i | 0 <= i < |t|
      ensures AtMost(lo, t[i].slug)
    {
      assert t[i] in multiset(t);
      if t[i] != r {
        assert t[i] in multiset(rs);
        var k :| 0 <= k < |rs| && rs[k] == t[i];
      }
    }
  }

  lemma AtMostTransitive(a: string, b: string, c: string)
    requires AtMost(a, b) && AtMost(b, c)
    ensures AtMost(a, c)
  {
    if Below(a, b) && Below(b, c) {
      BelowTransitive(a, b, c);
    }
  }

  lemma {:induction false} InsertSorted(r: StadiumRecord, rs: seq<StadiumRecord>)
    requires Sorted(rs)
    ensures Sorted(Insert(r, rs))
  {
    if rs == [] {
    } else if AtMost(r.slug, rs[0].slug) {
      var u := [r] + rs;
      forall i, j | 0 <= i < j < |u|
        ensures AtMost(u[i].slug, u[j].slug)
      {
        if i == 0 && j > 1 {
          AtMostTransitive(r.slug, rs[0].slug, rs[j - 1].slug);
        } else if i > 0 {
          assert u[i] == rs[i - 1] && u[j] == rs[j - 1];
        }
      }
    } else {
      var rest := rs[1..];
      assert Sorted(rest) by {
        forall i, j | 0 <= i < j < |rest|
          ensures AtMost(rest[i].slug, rest[j].slug)
        {
          assert rest[i] == rs[i + 1] && rest[j] == rs[j + 1];
        }
      }
      InsertSorted(r, rest);
      var t := Insert(r, rest);
      BelowTotal(r.slug, rs[0].slug);
      forall i | 0 <= i < |rest|
        ensures AtMost(rs[0].slug, rest[i].slug)
      {
        assert rest[i] == rs[i + 1];
      }
      InsertBound(r, rest, rs[0].slug);
      var u := [rs[0]] + t;
      forall i, j | 0 <= i < j < |u|
        ensures AtMost(u[i].slug, u[j].slug)
      {
        if i == 0 {
          assert u[j] == t[j - 1];
        } else {
          assert u[i] == t[i - 1] && u[j] == t[j - 1];
        }
      }
    }
  }

  /** Sorting orders the records by slug and neither drops nor adds any. */
  lemma {:induction false} SortBySlugSpec(rs: seq<StadiumRecord>)
    ensures Sorted(SortBySlug(rs))
    ensures multiset(SortBySlug(rs)) == multiset(rs)
  {
    if rs != [] {
      SortBySlugSpec(rs[1..]);
      InsertSorted(rs[0], SortBySlug(rs[1..]));
      InsertPerm(rs[0], SortBySlug(rs[1..]));
      assert rs == [rs[0]] + rs[1..];
    }
  }

  lemma HasSlugCons(x: StadiumRecord, rs: seq<StadiumRecord>, k: string)
    ensures HasSlug([x] + rs, k) <==> x.slug == k || HasSlug(rs, k)
  {
    var u := [x] + rs;
    if HasSlug(u, k) && x.slug != k {
      var j :| 0 <= j < |u| && u[j].slug == k;
      assert rs[j - 1] == u[j];
    }
    if HasSlug(rs, k) {
      var j :| 0 <= j < |rs| && rs[j].slug == k;
      assert u[j + 1] == rs[j];
    }
    assert u[0] == x;
  }

  lemma DistinctCons(x: StadiumRecord, rs: seq<StadiumRecord>)
    ensures DistinctSlugs([x] + rs) <==> !HasSlug(rs, x.slug) && DistinctSlugs(rs)
  {
    var u := [x] + rs;
    assert forall i :: 0 <= i < |rs| ==> u[i + 1] == rs[i];
    if DistinctSlugs(u) {
      forall j | 0 <= j < |rs|
        ensures rs[j].slug != x.slug
      {
        assert u[0] == x;
      }
    }
  }

  lemma {:induction false} InsertHasSlug(r: StadiumRecord, rs: seq<StadiumRecord>, k: string)
    ensures HasSlug(Insert(r, rs), k) <==> HasSlug(rs, k) || k == r.slug
  {
    if rs == [] {
      assert [r][0] == r;
    } else if AtMost(r.slug, rs[0].slug) {
      HasSlugCons(r, rs, k);
    } else {
      assert rs == [rs[0]] + rs[1..];
      InsertHasSlug(r, rs[1..], k);
      HasSlugCons(rs[0], Insert(r, rs[1..]), k);
      HasSlugCons(rs[0], rs[1..], k);
    }
  }

  lemma {:induction false} InsertDistinct(r: StadiumRecord, rs: seq<StadiumRecord>)
    requires DistinctSlugs(rs) && !HasSlug(rs, r.slug)
    ensures DistinctSlugs(Insert(r, rs))
  {
    if rs == [] {
    } else if AtMost(r.slug, rs[0].slug) {
      DistinctCons(r, rs);
    } else {
      assert rs == [rs[0]] + rs[1..];
      DistinctCons(rs[0], rs[1..]);
      HasSlugCons(rs[0], rs[1..], r.slug);
      InsertDistinct(r, rs[1..]);
      InsertHasSlug(r, rs[1..], rs[0].slug);
      DistinctCons(rs[0], Insert(r, rs[1..]));
    }
  }

  /** Sorting keeps the set of slugs, and keeps them distinct when they were. */
  lemma {:induction false} SortBySlugSlugs(rs: seq<StadiumRecord>)
    ensures forall k :: HasSlug(SortBySlug(rs), k) <==> HasSlug(rs, k)
    ensures DistinctSlugs(rs) ==> DistinctSlugs(SortBySlug(rs))
  {
    if rs != [] {
      assert rs == [rs[0]] + rs[1..];
      SortBySlugSlugs(rs[1..]);
      forall k
        ensures HasSlug(SortBySlug(rs), k) <==> HasSlug(rs, k)
      {
        InsertHasSlug(rs[0], SortBySlug(rs[1..]), k);
        HasSlugCons(rs[0], rs[1..], k);
      }
      if DistinctSlugs(rs) {
        DistinctCons(rs[0], rs[1..]);
        InsertDistinct(rs[0], SortBySlug(rs[1..]));
      }
    }
  }

  /** With distinct slugs, the sorted order is strictly ascending. */
  lemma SortedDistinctIsStrict(rs: seq<StadiumRecord>)
    requires DistinctSlugs(rs)
    ensures StrictlySorted(SortBySlug(rs))
  {
    SortBySlugSpec(rs);
    SortBySlugSlugs(rs);
  }

  /** The found and missing lists for the de-duplicated `venues` and the file system. */
  function ListsOf(venues: seq<StadiumRecord>, existing: set<string>): Lists {
    var records := AllWithFiles(venues, existing);
    Lists(SortBySlug(Found(records)), SortBySlug(Missing(records)))
  }

  /** The `found` and `missing` lists `main` computes from `games` and the stadium image files. */
  function ManifestOf(games: seq<Game>, existing: set<string>): Lists {
    ListsOf(Venues(games), existing)
  }

  /** The two filters keep every record exactly once between them, each on the side its files say. */
  lemma {:induction false} FoundMissingSplit(rs: seq<StadiumRecord>)
    ensures multiset(Found(rs)) + multiset(Missing(rs)) == multiset(rs)
    ensures forall r :: r in Found(rs) ==> r.filesPresent != []
    ensures forall r :: r in Missing(rs) ==> r.filesPresent == []
  {
    if rs != [] {
      FoundMissingSplit(rs[1..]);
      assert rs == [rs[0]] + rs[1..];
    }
  }

  lemma {:induction false} FoundMissingSlugs(rs: seq<StadiumRecord>, k: string)
    ensures HasSlug(Found(rs), k) || HasSlug(Missing(rs), k) <==> HasSlug(rs, k)
  {
    if rs != [] {
      FoundMissingSlugs(rs[1..], k);
      assert rs == [rs[0]] + rs[1..];
      HasSlugCons(rs[0], rs[1..], k);
      HasSlugCons(rs[0], Found(rs[1..]), k);
      HasSlugCons(rs[0], Missing(rs[1..]), k);
      assert [] + Found(rs[1..]) == Found(rs[1..]);
      assert [] + Missing(rs[1..]) == Missing(rs[1..]);
    }
  }

  /** With distinct slugs, each filter keeps them distinct and no slug lands on both sides. */
  lemma {:induction false} FoundMissingDistinct(rs: seq<StadiumRecord>)
    requires DistinctSlugs(rs)
    ensures DistinctSlugs(Found(rs)) && DistinctSlugs(Missing(rs))
    ensures forall k :: !(HasSlug(Found(rs), k) && HasSlug(Missing(rs), k))
  {
    if rs != [] {
      var x, rest := rs[0], rs[1..];
      assert rs == [x] + rest;
      DistinctCons(x, rest);
      FoundMissingDistinct(rest);
      FoundMissingSlugs(rest, x.slug);
      assert [] + Found(rest) == Found(rest);
      assert [] + Missing(rest) == Missing(rest);
      DistinctCons(x, Found(rest));
      DistinctCons(x, Missing(rest));
      forall k
        ensures !(HasSlug(Found(rs), k) && HasSlug(Missing(rs), k))
      {
        HasSlugCons(x, Found(rest), k);
        HasSlugCons(x, Missing(rest), k);
      }
    }
  }

  /** Probing for files changes no slug. */
  lemma AllWithFilesSlugs(rs: seq<StadiumRecord>, existing: set<string>)
    ensures forall k :: HasSlug(AllWithFiles(rs, existing), k) <==> HasSlug(rs, k)
    ensures DistinctSlugs(rs) ==> DistinctSlugs(AllWithFiles(rs, existing))
  {
    var ws := AllWithFiles(rs, existing);
    assert forall i :: 0 <= i < |rs| ==> ws[i].slug == rs[i].slug;
    forall k | HasSlug(rs, k)
      ensures HasSlug(ws, k)
    {
      var j :| 0 <= j < |rs| && rs[j].slug == k;
      assert ws[j].slug == k;
    }
  }

  /**
   * The manifest, lines 43-70: `found` and `missing` together hold every
   * de-duplicated record once, with its probed files; a slug is listed exactly
   * when some game has it, and on one side only; `found` holds the records with
   * files and `missing` those without; both are strictly ascending by slug.
   */
  lemma ManifestSpec(games: seq<Game>, existing: set<string>)
    ensures multiset(ManifestOf(games, existing).found) + multiset(ManifestOf(games, existing).missing)
            == multiset(AllWithFiles(Venues(games), existing))
    ensures forall r :: r in ManifestOf(games, existing).found ==> r.filesPresent != []
    ensures forall r :: r in ManifestOf(games, existing).missing ==> r.filesPresent == []
    ensures forall k :: HasSlug(ManifestOf(games, existing).found, k) || HasSlug(ManifestOf(games, existing).missing, k)
                        <==> SomeSeedHas(Seeds(games), k)
    ensures forall k :: !(HasSlug(ManifestOf(games, existing).found, k) && HasSlug(ManifestOf(games, existing).missing, k))
    ensures StrictlySorted(ManifestOf(games, existing).found)
    ensures StrictlySorted(ManifestOf(games, existing).missing)
  {
    var v := Venues(games);
    var records := AllWithFiles(v, existing);
    var f, m := Found(records), Missing(records);
    DedupSlugs(Seeds(games));
    AllWithFilesSlugs(v, existing);
    FoundMissingSplit(records);
    FoundMissingDistinct(records);
    SortBySlugSpec(f);
    SortBySlugSpec(m);
    SortBySlugSlugs(f);
    SortBySlugSlugs(m);
    SortedDistinctIsStrict(f);
    SortedDistinctIsStrict(m);
    forall r | r in SortBySlug(f)
      ensures r.filesPresent != []
    {
      assert r in multiset(SortBySlug(f));
    }
    forall r | r in SortBySlug(m)
      ensures r.filesPresent == []
    {
      assert r in multiset(SortBySlug(m));
    }
    forall k
      ensures HasSlug(SortBySlug(f), k) || HasSlug(SortBySlug(m), k) <==> SomeSeedHas(Seeds(games), k)
    {
      FoundMissingSlugs(records, k);
    }
  }

  /** The probe loop for one record, lines 64-67: appends each existing image path, extension by extension. */
  method ProbeFiles(rec: StadiumRecord, existing: set<string>) returns (r: StadiumRecord)
    requires rec.filesPresent == []
    ensures r == WithFiles(rec, existing)
  {
    var exts := [".jpg", ".png", ".webp"];
    r := rec;
    for e := 0 to |exts|
      invariant r == rec.(filesPresent := Probe(rec.slug, exts[..e], existing))
    {
      assert exts[..e + 1][..e] == exts[..e];
      var p := StadiumDir + "/" + r.slug + exts[e];
      if p in existing {
        r := r.(filesPresent := r.filesPresent + [p]);
      }
    }
    assert exts[..|exts|] == Extensions;
  }

  /** `uniq` holds the records `v`, and `order` is its insertion order, the slugs of `v`. */
  ghost predicate Tracks(uniq: map<string, StadiumRecord>, order: seq<string>, v: seq<StadiumRecord>) {
    && (forall k :: k in uniq <==> k in order)
    && |order| == |v|
    && (forall j :: 0 <= j < |order| ==> order[j] in uniq && uniq[order[j]] == v[j] && v[j].slug == order[j])
  }

  /** One pass of the de-duplication loop, lines 46-59: parse the game's location and keep the first record per slug. */
  method AddGame(uniq: map<string, StadiumRecord>, order: seq<string>, g: Game, ghost seeds: seq<Option<StadiumRecord>>)
    returns (uniq': map<string, StadiumRecord>, order': seq<string>)
    requires Tracks(uniq, order, Dedup(seeds))
    ensures Tracks(uniq', order', Dedup(seeds + [Seed(g)]))
  {
    ghost var v := Dedup(seeds);
    DedupSnoc(seeds, Seed(g));
    uniq', order' := uniq, order;
    var loc := ParseLocation(g.location);
    if loc.slug.None? || loc.slug.value == "" {
      return;
    }
    var slug := loc.slug.value;
    if slug !in uniq {
      assert !HasSlug(v, slug);
      var rec := StadiumRecord(slug, g.location, loc.city, loc.stadium, g.opponentName, [],
                               [slug + ".jpg", slug + ".png", slug + ".webp"]);
      uniq' := uniq[slug := rec];
      order' := order + [slug];
    } else {
      var j :| 0 <= j < |order| && order[j] == slug;
      assert v[j].slug == slug;
    }
  }

  /** The de-duplication loop, lines 44-59: a dictionary keyed by slug, filled game by game. */
  method CollectVenues(games: seq<Game>) returns (uniq: map<string, StadiumRecord>, order: seq<string>)
    ensures Tracks(uniq, order, Venues(games))
  {
    uniq, order := map[], [];
    for i := 0 to |games|
      invariant Tracks(uniq, order, Venues(games[..i]))
    {
      assert games[..i + 1] == games[..i] + [games[i]];
      SeedsSnoc(games[..i], games[i]);
      uniq, order := AddGame(uniq, order, games[i], Seeds(games[..i]));
    }
    assert games[..|games|] == games;
  }

  /**
   * Lines 61-70: the probe loop over the dictionary's values, in insertion order,
   * then the two sorted lists.
   */
  method ProbeAndSplit(uniq: map<string, StadiumRecord>, order: seq<string>, ghost venues: seq<StadiumRecord>, existing: set<string>)
    returns (found: seq<StadiumRecord>, missing: seq<StadiumRecord>)
    requires Tracks(uniq, order, venues) && DistinctSlugs(venues)
    requires forall j :: 0 <= j < |venues| ==> Fresh(venues[j])
    ensures Lists(found, missing) == ListsOf(venues, existing)
  {
    var files := uniq;
    assert forall a, b :: 0 <= a < b < |order| ==> order[a] != order[b];
    for j := 0 to |order|
      invariant forall k :: k in files <==> k in order
      invariant forall a :: 0 <= a < |order| ==>
                  files[order[a]] == if a < j then WithFiles(venues[a], existing) else venues[a]
    {
      var rec := ProbeFiles(files[order[j]], existing);
      ghost var before := files;
      files := files[order[j] := rec];
      forall a | 0 <= a < |order|
        ensures files[order[a]] == if a < j + 1 then WithFiles(venues[a], existing) else venues[a]
      {
        if a != j {
          assert files[order[a]] == before[order[a]];
        }
      }
    }
    var values := seq(|order|, a requires 0 <= a < |order| => files[order[a]]);
    assert values == AllWithFiles(venues, existing) by {
      forall a | 0 <= a < |order|
        ensures values[a] == AllWithFiles(venues, existing)[a]
      {
      }
    }
    found := SortBySlug(Found(values));
    missing := SortBySlug(Missing(values));
  }

  /** Lines 43-70 of `main`: the de-duplication loop, then the probe loop and the two sorted lists. */
  method BuildManifest(games: seq<Game>, existing: set<string>) returns (found: seq<StadiumRecord>, missing: seq<StadiumRecord>)
    ensures Lists(found, missing) == ManifestOf(games, existing)
  {
    var uniq, order := CollectVenues(games);
    DedupFresh(Seeds(games));
    DedupSlugs(Seeds(games));
    found, missing := ProbeAndSplit(uniq, order, Venues(games), existing);
  }
}
