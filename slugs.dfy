/**
 * Venue slugs (data/build_stadium_manifest.py, `slugify` and `parse_location`).
 *
 * `str.lower` and `str.isalnum` are taken over ASCII: a non-ASCII letter or
 * digit counts as a separator here.
 */
module Slugs {
  import opened Wrappers
  import opened Text

  /** ASCII `str.isalnum`. */
  predicate IsAlnum(c: char) {
    ('a' <= c <= 'z') || ('A' <= c <= 'Z') || ('0' <= c <= '9')
  }

  /** ASCII `str.lower` on one character. */
  function LowerChar(c: char): char {
    if 'A' <= c <= 'Z' then (c as int + 32) as char else c
  }

  /** ASCII `str.lower`. */
  function Lower(s: string): string {
    seq(|s|, i requires 0 <= i < |s| => LowerChar(s[i]))
  }

  /** `s.replace("&", "and")`. */
  function ReplaceAmp(s: string): string {
    if s == [] then []
    else (if s[0] == '&' then "and" else [s[0]]) + ReplaceAmp(s[1..])
  }

  /**
   * The character loop of `slugify`: alphanumerics are kept, and each maximal
   * run of other characters becomes one '-'. Defined on the prefix read so far,
   * as the loop reads it.
   */
  function Dashes(s: string): string {
    if s == [] then []
    else
      var p := Dashes(s[..|s| - 1]);
      var c := s[|s| - 1];
      if IsAlnum(c) then p + [c]
      else if p != [] && p[|p| - 1] == '-' then p
      else p + ['-']
  }

  /** The end of the run of '-' that starts at index `i` of `s`. */
  function DashRunEnd(s: string, i: nat): (e: nat)
    requires i <= |s|
    ensures i <= e <= |s|
    ensures forall k :: i <= k < e ==> s[k] == '-'
    ensures e < |s| ==> s[e] != '-'
    decreases |s| - i
  {
    if i == |s| || s[i] != '-' then i else DashRunEnd(s, i + 1)
  }

  /** The start of the run of '-' that ends at index `j` of `s`, looking no further left than `lo`. */
  function DashRunStart(s: string, lo: nat, j: nat): (e: nat)
    requires lo <= j <= |s|
    ensures lo <= e <= j
    ensures forall k :: e <= k < j ==> s[k] == '-'
    ensures e > lo ==> s[e - 1] != '-'
    decreases j
  {
    if j == lo || s[j - 1] != '-' then j else DashRunStart(s, lo, j - 1)
  }

  /** `s.strip("-")`: drops the leading and the trailing run of '-' and nothing else. */
  function StripDashes(s: string): (r: string)
    ensures r == [] || (r[0] != '-' && r[|r| - 1] != '-')
    ensures DashRunEnd(s, 0) + |r| <= |s|
    ensures r == s[DashRunEnd(s, 0)..DashRunEnd(s, 0) + |r|]
    ensures forall k :: 0 <= k < DashRunEnd(s, 0) ==> s[k] == '-'
    ensures forall k :: DashRunEnd(s, 0) + |r| <= k < |s| ==> s[k] == '-'
  {
    var i := DashRunEnd(s, 0);
    s[i..DashRunStart(s, i, |s|)]
  }

  /** `"--" in s`. */
  predicate HasDoubleDash(s: string) {
    exists i :: 0 <= i < |s| - 1 && s[i] == '-' && s[i + 1] == '-'
  }

  /** `s.replace("--", "-")`: left to right, without overlaps. */
  function ReplaceDoubleDash(s: string): (r: string)
    ensures |r| <= |s|
    ensures HasDoubleDash(s) ==> |r| < |s|
  {
    if |s| >= 2 && s[0] == '-' && s[1] == '-' then "-" + ReplaceDoubleDash(s[2..])
    else if s == [] then []
    else
      assert HasDoubleDash(s) ==> HasDoubleDash(s[1..]) by {
        if HasDoubleDash(s) {
          var i :| 0 <= i < |s| - 1 && s[i] == '-' && s[i + 1] == '-';
          assert s[1..][i - 1] == '-' && s[1..][i] == '-';
        }
      }
      [s[0]] + ReplaceDoubleDash(s[1..])
  }

  /** `while "--" in s: s = s.replace("--", "-")`; each round shortens `s`, so it ends. */
  function CollapseDashes(s: string): (r: string)
    ensures !HasDoubleDash(r)
    decreases |s|
  {
    if HasDoubleDash(s) then CollapseDashes(ReplaceDoubleDash(s)) else s
  }

  /** `slugify(s)`: `None` and `""` both give `""`. */
  function Slug(text: Option<string>): string {
    CollapseDashes(StripDashes(Dashes(ReplaceAmp(Lower(text.GetOr(""))))))
  }

  /** The characters a slug is made of: lower-case ASCII letters, digits and '-'. */
  predicate SlugChar(c: char) {
    ('a' <= c <= 'z') || ('0' <= c <= '9') || c == '-'
  }

  /** What `slugify` promises of its result. */
  predicate IsSlug(s: string) {
    && (forall i :: 0 <= i < |s| ==> SlugChar(s[i]))
    && (s == [] || (s[0] != '-' && s[|s| - 1] != '-'))
    && !HasDoubleDash(s)
  }

  predicate NoUpper(s: string) {
    forall i :: 0 <= i < |s| ==> !('A' <= s[i] <= 'Z')
  }

  /** `slugify` step by step: a character loop with a `dash` flag, then strip, then the replace loop. */
  method Slugify(text: Option<string>) returns (res: string)
    ensures res == Slug(text)
  {
    var s := ReplaceAmp(Lower(text.GetOr("")));
    var out: string := [];
    var dash := false;
    for i := 0 to |s|
      invariant out == Dashes(s[..i])
      invariant dash <==> (out != [] && out[|out| - 1] == '-')
    {
      assert s[..i + 1][..i] == s[..i];
      var ch := s[i];
      if IsAlnum(ch) {
        out := out + [ch];
        dash := false;
      } else if !dash {
        out := out + ['-'];
        dash := true;
      }
    }
    assert s[..|s|] == s;
    res := StripDashes(out);
    ghost var stripped := res;
    while HasDoubleDash(res)
      invariant CollapseDashes(res) == CollapseDashes(stripped)
      decreases |res|
    {
      res := ReplaceDoubleDash(res);
    }
  }

  lemma {:induction false} ReplaceAmpNoUpper(s: string)
    requires NoUpper(s)
    ensures NoUpper(ReplaceAmp(s))
  {
    if s != [] {
      ReplaceAmpNoUpper(s[1..]);
      var h := if s[0] == '&' then "and" else [s[0]];
      assert NoUpper(h);
      assert ReplaceAmp(s) == h + ReplaceAmp(s[1..]);
    }
  }

  /** The character loop yields only slug characters and never two '-' in a row. */
  lemma {:induction false} DashesShape(s: string)
    requires NoUpper(s)
    ensures forall i :: 0 <= i < |Dashes(s)| ==> SlugChar(Dashes(s)[i])
    ensures !HasDoubleDash(Dashes(s))
  {
    if s != [] {
      var q := s[..|s| - 1];
      assert NoUpper(q);
      DashesShape(q);
      var p := Dashes(q);
      var r := Dashes(s);
      assert forall i :: 0 <= i < |p| ==> r[i] == p[i];
      forall i | 0 <= i < |r| - 1 && r[i] == '-'
        ensures r[i + 1] != '-'
      {
        if i + 1 < |p| {
          assert r[i + 1] == p[i + 1];
        }
      }
    }
  }

  lemma StripDashesShape(s: string)
    requires forall i :: 0 <= i < |s| ==> SlugChar(s[i])
    requires !HasDoubleDash(s)
    ensures IsSlug(StripDashes(s))
  {
    var k := DashRunEnd(s, 0);
    var r := StripDashes(s);
    assert r == s[k..DashRunStart(s, k, |s|)];
    assert forall i :: 0 <= i < |r| ==> r[i] == s[k + i];
    forall i | 0 <= i < |r| - 1
      ensures !(r[i] == '-' && r[i + 1] == '-')
    {
      assert r[i] == s[k + i] && r[i + 1] == s[k + i + 1];
    }
  }

  /**
   * A slug consists only of lower-case ASCII letters, digits and '-' (so no '&'),
   * neither starts nor ends with '-', and holds no "--".
   */
  lemma SlugWellFormed(text: Option<string>)
    ensures IsSlug(Slug(text))
    ensures '&' !in Slug(text)
  {
    var lowered := Lower(text.GetOr(""));
    assert NoUpper(lowered);
    ReplaceAmpNoUpper(lowered);
    var d := Dashes(ReplaceAmp(lowered));
    DashesShape(ReplaceAmp(lowered));
    StripDashesShape(d);
    var t := StripDashes(d);
    assert !HasDoubleDash(t);
    assert Slug(text) == t;
  }

  /** `slugify(None)` and `slugify("")` are both `""`. */
  lemma SlugOfNothing()
    ensures Slug(None) == "" && Slug(Some("")) == ""
  {
    assert Dashes([]) == [];
  }

  lemma {:induction false} ReplaceAmpOfSlug(s: string)
    requires forall i :: 0 <= i < |s| ==> SlugChar(s[i])
    ensures ReplaceAmp(s) == s
  {
    if s != [] {
      ReplaceAmpOfSlug(s[1..]);
      assert s == [s[0]] + s[1..];
    }
  }

  lemma {:induction false} DashesOfSlug(s: string)
    requires forall i :: 0 <= i < |s| ==> SlugChar(s[i])
    requires !HasDoubleDash(s)
    ensures Dashes(s) == s
  {
    if s != [] {
      var q := s[..|s| - 1];
      forall i | 0 <= i < |q| - 1
        ensures !(q[i] == '-' && q[i + 1] == '-')
      {
        assert q[i] == s[i] && q[i + 1] == s[i + 1];
      }
      DashesOfSlug(q);
      assert s == q + [s[|s| - 1]];
      if |s| >= 2 && s[|s| - 1] == '-' {
        assert s[|s| - 2] != '-';
      }
    }
  }

  /** Slugifying a slug gives it back unchanged. */
  lemma SlugIdempotent(text: Option<string>)
    ensures Slug(Some(Slug(text))) == Slug(text)
  {
    var t := Slug(text);
    SlugWellFormed(text);
    assert Lower(t) == t;
    ReplaceAmpOfSlug(t);
    DashesOfSlug(t);
    assert DashRunEnd(t, 0) == 0;
    assert DashRunStart(t, 0, |t|) == |t|;
    assert t[0..|t|] == t;
  }

  // What a slug is made of: the runs of letters and digits of the lowered text.

  /** A maximal-run candidate: non-empty, ASCII letters and digits only. */
  predicate IsRun(w: string) {
    w != [] && forall i :: 0 <= i < |w| ==> IsAlnum(w[i])
  }

  /** Where the run of letters and digits that ends at index `j` of `s` starts. */
  function AlnumRunStart(s: string, j: nat): (k: nat)
    requires j <= |s|
    ensures k <= j
    ensures forall i :: k <= i < j ==> IsAlnum(s[i])
    ensures k > 0 ==> !IsAlnum(s[k - 1])
    ensures j > 0 && IsAlnum(s[j - 1]) ==> k < j
    decreases j
  {
    if j == 0 || !IsAlnum(s[j - 1]) then j else AlnumRunStart(s, j - 1)
  }

  /** The maximal runs of ASCII letters and digits in `s`, in order. */
  function AlnumRuns(s: string): seq<string>
    decreases |s|
  {
    if s == [] then []
    else if !IsAlnum(s[|s| - 1]) then AlnumRuns(s[..|s| - 1])
    else
      var k := AlnumRunStart(s, |s|);
      AlnumRuns(s[..k]) + [s[k..]]
  }

  /** Every run is non-empty and made of letters and digits only. */
  lemma {:induction false} AlnumRunsShape(s: string)
    ensures forall i :: 0 <= i < |AlnumRuns(s)| ==> IsRun(AlnumRuns(s)[i])
    decreases |s|
  {
    if s != [] {
      if !IsAlnum(s[|s| - 1]) {
        AlnumRunsShape(s[..|s| - 1]);
      } else {
        var k := AlnumRunStart(s, |s|);
        AlnumRunsShape(s[..k]);
        assert IsRun(s[k..]) by {
          assert forall i :: 0 <= i < |s[k..]| ==> s[k..][i] == s[k + i];
        }
      }
    }
  }

  lemma {:induction false} AlnumRunStartSnoc(p: string, c: char, j: nat)
    requires j <= |p|
    ensures AlnumRunStart(p + [c], j) == AlnumRunStart(p, j)
    decreases j
  {
    if j > 0 {
      assert (p + [c])[j - 1] == p[j - 1];
      AlnumRunStartSnoc(p, c, j - 1);
    }
  }

  /** A separator after `p` adds no run. */
  lemma RunsSnocSeparator(p: string, c: char)
    requires !IsAlnum(c)
    ensures AlnumRuns(p + [c]) == AlnumRuns(p)
  {
    assert (p + [c])[..|p|] == p;
  }

  /** A letter or digit after a separator (or at the start) begins a new run. */
  lemma RunsSnocStart(p: string, c: char)
    requires IsAlnum(c)
    requires p == [] || !IsAlnum(p[|p| - 1])
    ensures AlnumRuns(p + [c]) == AlnumRuns(p) + [[c]]
  {
    var s := p + [c];
    assert s[|s| - 1] == c;
    if p != [] {
      assert s[|p| - 1] == p[|p| - 1];
    }
    assert AlnumRunStart(s, |s|) == |p|;
    assert s[..|p|] == p && s[|p|..] == [c];
  }

  /** A letter or digit after a letter or digit extends the last run. */
  lemma RunsSnocExtend(p: string, c: char)
    requires IsAlnum(c)
    requires p != [] && IsAlnum(p[|p| - 1])
    ensures AlnumRunStart(p, |p|) < |p|
    ensures AlnumRuns(p) == AlnumRuns(p[..AlnumRunStart(p, |p|)]) + [p[AlnumRunStart(p, |p|)..]]
    ensures AlnumRuns(p + [c]) == AlnumRuns(p[..AlnumRunStart(p, |p|)]) + [p[AlnumRunStart(p, |p|)..] + [c]]
  {
    var s := p + [c];
    var k := AlnumRunStart(p, |p|);
    assert s[|s| - 1] == c;
    assert AlnumRunStart(s, |s|) == k by {
      assert s[|p| - 1] == p[|p| - 1];
      AlnumRunStartSnoc(p, c, |p|);
    }
    RunsOfLastRun(p);
    RunsOfLastRun(s);
    SnocSlices(p, c, k);
  }

  /** The runs of text ending in a letter or digit: the runs before the last one, then the last. */
  lemma RunsOfLastRun(s: string)
    requires s != [] && IsAlnum(s[|s| - 1])
    ensures AlnumRuns(s) == AlnumRuns(s[..AlnumRunStart(s, |s|)]) + [s[AlnumRunStart(s, |s|)..]]
  {
  }

  lemma SnocSlices<T>(p: seq<T>, c: T, k: nat)
    requires k <= |p|
    ensures (p + [c])[..k] == p[..k]
    ensures (p + [c])[k..] == p[k..] + [c]
  {
  }

  /** One more character read by the character loop. */
  lemma DashesSnoc(p: string, c: char)
    ensures Dashes(p + [c]) ==
      if IsAlnum(c) then Dashes(p) + [c]
      else if Dashes(p) != [] && Dashes(p)[|Dashes(p)| - 1] == '-' then Dashes(p)
      else Dashes(p) + ['-']
  {
    assert (p + [c])[..|p + [c]| - 1] == p;
  }

  lemma DashesNonEmpty(s: string)
    requires s != []
    ensures Dashes(s) != []
  {
  }

  /** The '-' the character loop writes for separators before the first run. */
  function LeadDash(s: string): string {
    if s != [] && !IsAlnum(s[0]) then "-" else ""
  }

  /** The '-' the character loop writes for separators after the last run. */
  function TrailDash(s: string): string {
    if s != [] && !IsAlnum(s[|s| - 1]) && AlnumRuns(s) != [] then "-" else ""
  }

  /** The character loop writes the runs joined by '-', with one '-' for separators at either end. */
  predicate DashesFramed(s: string) {
    Dashes(s) == LeadDash(s) + Join("-", AlnumRuns(s)) + TrailDash(s)
  }

  lemma FramedSnocSeparator(p: string, c: char)
    requires !IsAlnum(c)
    requires DashesFramed(p)
    ensures DashesFramed(p + [c])
  {
    if p == [] {
      assert p + [c] == [c];
    } else if IsAlnum(p[|p| - 1]) {
      FramedSeparatorAfterRun(p, c);
    } else {
      FramedSeparatorAfterSeparator(p, c);
    }
  }

  /** What a separator after non-empty `p` leaves unchanged: the leading dash and the runs. */
  lemma SeparatorSnocFacts(p: string, c: char)
    requires !IsAlnum(c) && p != []
    ensures LeadDash(p + [c]) == LeadDash(p)
    ensures AlnumRuns(p + [c]) == AlnumRuns(p)
    ensures TrailDash(p + [c]) == if AlnumRuns(p) != [] then "-" else ""
  {
    RunsSnocSeparator(p, c);
    assert (p + [c])[0] == p[0];
    assert (p + [c])[|p|] == c;
  }

  lemma FramedSeparatorAfterRun(p: string, c: char)
    requires !IsAlnum(c) && p != [] && IsAlnum(p[|p| - 1])
    requires DashesFramed(p)
    ensures DashesFramed(p + [c])
  {
    SeparatorSnocFacts(p, c);
    var q, d := p[..|p| - 1], p[|p| - 1];
    assert Dashes(p) == Dashes(q) + [d] by {
      assert p == q + [d];
      DashesSnoc(q, d);
    }
    assert AlnumRuns(p) != [];
    assert TrailDash(p) == "";
    DashesSnoc(p, c);
    assert Dashes(p + [c]) == Dashes(p) + ['-'];
  }

  lemma FramedSeparatorAfterSeparator(p: string, c: char)
    requires !IsAlnum(c) && p != [] && !IsAlnum(p[|p| - 1])
    requires DashesFramed(p)
    ensures DashesFramed(p + [c])
  {
    SeparatorSnocFacts(p, c);
    DashesSnoc(p, c);
    if AlnumRuns(p) == [] {
      DashesNonEmpty(p);
      assert Dashes(p) == LeadDash(p);
    } else {
      assert TrailDash(p) == "-";
    }
  }

  lemma FramedSnocStart(p: string, c: char)
    requires IsAlnum(c)
    requires p == [] || !IsAlnum(p[|p| - 1])
    requires DashesFramed(p)
    ensures DashesFramed(p + [c])
  {
    var s := p + [c];
    var lead, j := LeadDash(p), Join("-", AlnumRuns(p));
    DashesSnoc(p, c);
    RunsSnocStart(p, c);
    JoinSnoc("-", AlnumRuns(p), [c]);
    assert TrailDash(s) == "" by {
      assert s[|s| - 1] == c;
    }
    assert LeadDash(s) == lead by {
      if p == [] {
        assert s == [c];
      } else {
        assert s[0] == p[0];
      }
    }
    if AlnumRuns(p) == [] {
      assert Dashes(p) == lead;
    } else {
      assert TrailDash(p) == "-";
      AppendAssoc4(lead, j, "-", [c]);
    }
  }

  lemma FramedSnocExtend(p: string, c: char)
    requires IsAlnum(c)
    requires p != [] && IsAlnum(p[|p| - 1])
    requires DashesFramed(p)
    ensures DashesFramed(p + [c])
  {
    var s := p + [c];
    DashesSnoc(p, c);
    RunsSnocExtend(p, c);
    var k := AlnumRunStart(p, |p|);
    var xs, u := AlnumRuns(p[..k]), p[k..];
    JoinExtendLast("-", xs, u, c);
    assert TrailDash(p) == "" && TrailDash(s) == "" by {
      assert s[|s| - 1] == c;
    }
    assert LeadDash(s) == LeadDash(p) by {
      assert s[0] == p[0];
    }
    AppendAssoc4(LeadDash(p), Join("-", xs + [u]), [c], "");
  }

  /** Growing the last part by one character grows the joined text by that character. */
  lemma JoinExtendLast(sep: string, xs: seq<string>, u: string, c: char)
    ensures Join(sep, xs + [u + [c]]) == Join(sep, xs + [u]) + [c]
  {
    JoinSnoc(sep, xs, u);
    JoinSnoc(sep, xs, u + [c]);
    if xs != [] {
      AppendAssoc4(Join(sep, xs), sep, u, [c]);
    }
  }

  /** The character loop of `slugify` writes the runs of letters and digits joined by single '-'. */
  lemma {:induction false} DashesRuns(s: string)
    ensures DashesFramed(s)
    decreases |s|
  {
    if s != [] {
      var p, c := s[..|s| - 1], s[|s| - 1];
      assert s == p + [c];
      DashesRuns(p);
      if !IsAlnum(c) {
        FramedSnocSeparator(p, c);
      } else if p == [] || !IsAlnum(p[|p| - 1]) {
        FramedSnocStart(p, c);
      } else {
        FramedSnocExtend(p, c);
      }
    }
  }

  /** Runs joined by '-' start and end with a letter or digit. */
  lemma {:induction false} JoinRunsEnds(rs: seq<string>)
    requires forall i :: 0 <= i < |rs| ==> IsRun(rs[i])
    requires rs != []
    ensures Join("-", rs) != []
    ensures IsAlnum(Join("-", rs)[0]) && IsAlnum(Join("-", rs)[|Join("-", rs)| - 1])
  {
    if |rs| > 1 {
      JoinRunsEnds(rs[1..]);
      var j := Join("-", rs[1..]);
      assert Join("-", rs) == rs[0] + "-" + j;
      assert Join("-", rs)[0] == rs[0][0];
      assert Join("-", rs)[|Join("-", rs)| - 1] == j[|j| - 1];
    }
  }

  /** `strip("-")` of text framed by at most one '-' on each side gives the text between. */
  lemma StripFramed(lead: string, m: string, trail: string)
    requires lead == "" || lead == "-"
    requires trail == "" || trail == "-"
    requires m == [] ==> trail == ""
    requires m != [] ==> m[0] != '-' && m[|m| - 1] != '-'
    ensures StripDashes(lead + m + trail) == m
  {
    var x := lead + m + trail;
    MiddleSlice(lead, m, trail);
    assert x == lead + (m + trail);
    assert m + trail == [] || (m + trail)[0] != '-' by {
      if m != [] {
        assert (m + trail)[0] == m[0];
      }
    }
    LeadRunEnd(lead, m + trail);
    assert |lead + m| == |lead| || (lead + m)[|lead + m| - 1] != '-' by {
      if m != [] {
        assert (lead + m)[|lead + m| - 1] == m[|m| - 1];
      }
    }
    TrailRunStart(lead + m, trail, |lead|);
  }

  /** At most one '-' before text that does not start with '-' is the whole leading run. */
  lemma LeadRunEnd(lead: string, y: string)
    requires lead == "" || lead == "-"
    requires y == [] || y[0] != '-'
    ensures DashRunEnd(lead + y, 0) == |lead|
  {
    var x := lead + y;
    if lead == "-" {
      assert x[0] == '-';
      assert DashRunEnd(x, 0) == DashRunEnd(x, 1);
      assert y != [] ==> x[1] == y[0];
    } else {
      assert x == y;
    }
  }

  /** At most one '-' after text that does not end with '-' is the whole trailing run. */
  lemma TrailRunStart(z: string, trail: string, lo: nat)
    requires trail == "" || trail == "-"
    requires lo <= |z|
    requires |z| == lo || z[|z| - 1] != '-'
    ensures DashRunStart(z + trail, lo, |z + trail|) == |z|
  {
    var x := z + trail;
    if |z| > lo {
      assert x[|z| - 1] == z[|z| - 1];
    }
    if trail == "-" {
      assert x[|x| - 1] == '-';
      assert DashRunStart(x, lo, |x|) == DashRunStart(x, lo, |z|);
    } else {
      assert x == z;
    }
  }

  lemma MiddleSlice<T>(a: seq<T>, b: seq<T>, c: seq<T>)
    ensures |a + b + c| == |a| + |b| + |c|
    ensures (a + b + c)[|a|..|a| + |b|] == b
  {
  }

  /**
   * `slugify(text)` is the runs of ASCII letters and digits of the lowered text,
   * with '&' spelt "and", joined by single '-'.
   */
  lemma SlugRuns(text: Option<string>)
    ensures Slug(text) == Join("-", AlnumRuns(ReplaceAmp(Lower(text.GetOr("")))))
  {
    var l := ReplaceAmp(Lower(text.GetOr("")));
    var rs := AlnumRuns(l);
    var j := Join("-", rs);
    DashesRuns(l);
    AlnumRunsShape(l);
    if rs != [] {
      JoinRunsEnds(rs);
    }
    StripFramed(LeadDash(l), j, TrailDash(l));
    assert StripDashes(Dashes(l)) == j;
    assert NoUpper(Lower(text.GetOr("")));
    ReplaceAmpNoUpper(Lower(text.GetOr("")));
    DashesShape(l);
    StripDashesShape(Dashes(l));
  }

  lemma LowerAmpExample()
    ensures Lower("A & B") == "a & b"
  {
  }

  lemma ReplaceAmpExample()
    ensures ReplaceAmp("a & b") == "a and b"
  {
    assert ReplaceAmp(" b") == " b" by {
      ReplaceAmpWithoutAmp(" b");
    }
    assert "a & b"[1..] == " & b" && " & b"[1..] == "& b" && "& b"[1..] == " b";
  }

  lemma RunsAmpExampleA()
    ensures AlnumRuns("a a") == ["a", "a"]
  {
    RunsSnocStart("", 'a');
    assert "" + ['a'] == "a";
    RunsSnocSeparator("a", ' ');
    assert "a" + [' '] == "a ";
    RunsSnocStart("a ", 'a');
    assert "a " + ['a'] == "a a";
  }

  lemma RunsAmpExampleAn()
    ensures AlnumRuns("a an") == ["a", "an"]
  {
    RunsAmpExampleA();
    RunsSnocExtend("a a", 'n');
    assert AlnumRunStart("a a", 3) == 2;
    assert "a a"[..2] == "a " && "a a"[2..] == "a";
    assert AlnumRuns("a ") == ["a"] by {
      RunsSnocStart("", 'a');
      assert "" + ['a'] == "a";
      RunsSnocSeparator("a", ' ');
      assert "a" + [' '] == "a ";
    }
    assert "a a" + ['n'] == "a an";
  }

  lemma RunsAmpExampleAnd()
    ensures AlnumRuns("a and") == ["a", "and"]
  {
    RunsAmpExampleAn();
    RunsSnocExtend("a an", 'd');
    assert AlnumRunStart("a an", 4) == 2;
    assert "a an"[..2] == "a " && "a an"[2..] == "an";
    assert AlnumRuns("a ") == ["a"] by {
      RunsSnocStart("", 'a');
      assert "" + ['a'] == "a";
      RunsSnocSeparator("a", ' ');
      assert "a" + [' '] == "a ";
    }
    assert "a an" + ['d'] == "a and";
  }

  lemma RunsAmpExample()
    ensures AlnumRuns("a and b") == ["a", "and", "b"]
  {
    RunsAmpExampleAnd();
    RunsSnocSeparator("a and", ' ');
    assert "a and" + [' '] == "a and ";
    RunsSnocStart("a and ", 'b');
    assert "a and " + ['b'] == "a and b";
  }

  /** `slugify("A & B")` spells out the ampersand: "a-and-b". */
  lemma SlugAmpExample()
    ensures Slug(Some("A & B")) == "a-and-b"
  {
    SlugRuns(Some("A & B"));
    LowerAmpExample();
    ReplaceAmpExample();
    RunsAmpExample();
    JoinAmpExample();
  }

  lemma JoinAmpExample()
    ensures Join("-", ["a", "and", "b"]) == "a-and-b"
  {
    assert ["a", "and", "b"] == ["a"] + ["and", "b"];
    JoinCons("-", "a", ["and", "b"]);
    assert ["and", "b"] == ["and"] + ["b"];
    JoinCons("-", "and", ["b"]);
  }

  /** The three values `parse_location` returns. */
  datatype Location = Location(city: Option<string>, stadium: Option<string>, slug: Option<string>)

  /**
   * `parse_location(loc)`: nothing for an empty location; otherwise the city is
   * the first '/'-separated part, the stadium the second, and the slug is made
   * from "<stadium>-<city>", from the city alone, or from the raw text.
   */
  function ParseLocation(loc: Option<string>): Location {
    if loc.None? || loc.value == "" then Location(None, None, None)
    else
      var parts := StripAll(SplitOn(loc.value, '/'));
      var city := parts[0];
      var stadium := if |parts| > 1 then Some(parts[1]) else None;
      Location(Some(city), stadium, Some(Slug(Some(SlugBase(loc.value, city, stadium)))))
  }

  /** The text the slug is made from: "<stadium>-<city>" when there is a non-blank stadium, else the city, else the raw text. */
  function SlugBase(raw: string, city: string, stadium: Option<string>): string {
    if stadium.Some? && stadium.value != "" then stadium.value + "-" + city
    else if city != "" then city
    else raw
  }

  /**
   * `parse_location` gives no slug exactly when the location is missing or empty,
   * and then gives nothing at all; otherwise it gives a city and a well-formed slug.
   */
  lemma ParseLocationShape(loc: Option<string>)
    ensures ParseLocation(loc).slug.None? <==> loc == None || loc == Some("")
    ensures ParseLocation(loc).slug.None? ==> ParseLocation(loc) == Location(None, None, None)
    ensures ParseLocation(loc).slug.Some? ==> IsSlug(ParseLocation(loc).slug.value) && ParseLocation(loc).city.Some?
  {
    if loc.Some? && loc.value != "" {
      var parts := StripAll(SplitOn(loc.value, '/'));
      SlugWellFormed(Some(SlugBase(loc.value, parts[0], if |parts| > 1 then Some(parts[1]) else None)));
    }
  }

  /**
   * For "<city>/<stadium>" (one '/'), the city and the stadium are the trimmed
   * parts. The slug is made from "<stadium>-<city>" when the stadium is not
   * blank, else from the city, else from the whole raw text.
   */
  lemma ParseCityAndStadium(city: string, stadium: string)
    requires '/' !in city && '/' !in stadium
    ensures ParseLocation(Some(city + "/" + stadium)).city == Some(Strip(city))
    ensures ParseLocation(Some(city + "/" + stadium)).stadium == Some(Strip(stadium))
    ensures Strip(stadium) != "" ==>
      ParseLocation(Some(city + "/" + stadium)).slug == Some(Slug(Some(Strip(stadium) + "-" + Strip(city))))
    ensures Strip(stadium) == "" && Strip(city) != "" ==>
      ParseLocation(Some(city + "/" + stadium)).slug == Some(Slug(Some(Strip(city))))
    ensures Strip(stadium) == "" && Strip(city) == "" ==>
      ParseLocation(Some(city + "/" + stadium)).slug == Some(Slug(Some(city + "/" + stadium)))
  {
    var loc := city + "/" + stadium;
    assert SplitOn(loc, '/') == [city, stadium] by {
      assert loc == city + ['/'] + stadium;
      SplitOnFirst(city, '/', stadium);
      assert SplitOn(stadium, '/') == [stadium];
    }
    assert StripAll([city, stadium]) == [Strip(city), Strip(stadium)];
  }

  /**
   * For "<city>/<stadium>/<rest>" (two or more '/'), the city and the stadium are
   * still the first two trimmed parts, and the rest is ignored except by the
   * fallback: when both parts are blank, the slug is made from the whole raw text.
   */
  lemma ParseCityStadiumRest(city: string, stadium: string, rest: string)
    requires '/' !in city && '/' !in stadium
    ensures ParseLocation(Some(city + "/" + stadium + "/" + rest)).city == Some(Strip(city))
    ensures ParseLocation(Some(city + "/" + stadium + "/" + rest)).stadium == Some(Strip(stadium))
    ensures Strip(stadium) != "" ==>
      ParseLocation(Some(city + "/" + stadium + "/" + rest)).slug == Some(Slug(Some(Strip(stadium) + "-" + Strip(city))))
    ensures Strip(stadium) == "" && Strip(city) != "" ==>
      ParseLocation(Some(city + "/" + stadium + "/" + rest)).slug == Some(Slug(Some(Strip(city))))
    ensures Strip(stadium) == "" && Strip(city) == "" ==>
      ParseLocation(Some(city + "/" + stadium + "/" + rest)).slug == Some(Slug(Some(city + "/" + stadium + "/" + rest)))
  {
    var loc := city + "/" + stadium + "/" + rest;
    SplitOnTwo(city, stadium, rest);
    StripAllFirstTwo(city, stadium, SplitOn(rest, '/'));
    ParseLocationTwoParts(loc, Strip(city), Strip(stadium));
  }

  lemma SplitOnTwo(city: string, stadium: string, rest: string)
    requires '/' !in city && '/' !in stadium
    ensures SplitOn(city + "/" + stadium + "/" + rest, '/') == [city, stadium] + SplitOn(rest, '/')
  {
    assert city + "/" + stadium + "/" + rest == city + ['/'] + (stadium + "/" + rest);
    SplitOnFirst(city, '/', stadium + "/" + rest);
    assert stadium + "/" + rest == stadium + ['/'] + rest;
    SplitOnFirst(stadium, '/', rest);
  }

  /** With at least two parts, `parse_location` takes the first two trimmed parts. */
  lemma ParseLocationTwoParts(loc: string, c: string, st: string)
    requires |SplitOn(loc, '/')| >= 2
    requires StripAll(SplitOn(loc, '/'))[0] == c && StripAll(SplitOn(loc, '/'))[1] == st
    ensures ParseLocation(Some(loc)) == Location(Some(c), Some(st), Some(Slug(Some(SlugBase(loc, c, Some(st))))))
  {
  }

  lemma StripAllFirstTwo(a: string, b: string, more: seq<string>)
    ensures |StripAll([a, b] + more)| >= 2
    ensures StripAll([a, b] + more)[0] == Strip(a) && StripAll([a, b] + more)[1] == Strip(b)
  {
    assert ([a, b] + more)[0] == a && ([a, b] + more)[1] == b;
  }

  /**
   * The raw-text fallback matters with two '/': in "//B" both parts are blank,
   * and the slug "b" comes from the text after the second '/'.
   */
  lemma ParseLocationRawExample()
    ensures ParseLocation(Some("//B")) == Location(Some(""), Some(""), Some("b"))
  {
    assert "" + "/" + "" + "/" + "B" == "//B";
    assert Strip("") == "";
    ParseCityStadiumRest("", "", "B");
    SlugRawExample();
  }

  lemma SlugRawExample()
    ensures Slug(Some("//B")) == "b"
  {
    SlugRuns(Some("//B"));
    LowerRawExample();
    ReplaceAmpRawExample();
    RunsRawExample();
  }

  lemma LowerRawExample()
    ensures Lower("//B") == "//b"
  {
  }

  lemma ReplaceAmpRawExample()
    ensures ReplaceAmp("//b") == "//b"
  {
    ReplaceAmpWithoutAmp("//b");
  }

  lemma RunsRawExample()
    ensures AlnumRuns("//b") == ["b"]
  {
    RunsSnocSeparator("", '/');
    assert "" + ['/'] == "/";
    RunsSnocSeparator("/", '/');
    assert "/" + ['/'] == "//";
    RunsSnocStart("//", 'b');
    assert "//" + ['b'] == "//b";
  }

  /**
   * Without a '/', the whole trimmed text is the city and there is no stadium.
   * The slug comes from the city; a blank city gives the empty slug.
   */
  lemma ParseCityOnly(city: string)
    requires '/' !in city && city != ""
    ensures ParseLocation(Some(city)).city == Some(Strip(city))
    ensures ParseLocation(Some(city)).stadium == None
    ensures Strip(city) != "" ==> ParseLocation(Some(city)).slug == Some(Slug(Some(Strip(city))))
    ensures Strip(city) == "" ==> ParseLocation(Some(city)).slug == Some("")
  {
    assert SplitOn(city, '/') == [city];
    assert StripAll([city]) == [Strip(city)];
    if Strip(city) == "" {
      SlugOfBlank(city);
    }
  }

  lemma {:induction false} LowerKeepsNonUpper(s: string)
    requires forall i :: 0 <= i < |s| ==> !('A' <= s[i] <= 'Z')
    ensures Lower(s) == s
  {
  }

  lemma {:induction false} RunsWithoutAlnum(s: string)
    requires forall i :: 0 <= i < |s| ==> !IsAlnum(s[i])
    ensures AlnumRuns(s) == []
    decreases |s|
  {
    if s != [] {
      RunsWithoutAlnum(s[..|s| - 1]);
    }
  }

  /** Text made only of whitespace and '/' slugs to "". */
  lemma SlugOfSeparators(t: string)
    requires forall i :: 0 <= i < |t| ==> IsSpace(t[i]) || t[i] == '/'
    ensures Slug(Some(t)) == ""
  {
    LowerKeepsNonUpper(t);
    assert forall i :: 0 <= i < |t| ==> t[i] != '&';
    ReplaceAmpWithoutAmp(t);
    RunsWithoutAlnum(t);
    SlugRuns(Some(t));
  }

  /** Text that strips to nothing is all whitespace. */
  lemma StripEmptyAllSpace(s: string)
    requires Strip(s) == ""
    ensures forall i :: 0 <= i < |s| ==> IsSpace(s[i])
  {
  }

  /**
   * With one '/' and both parts blank, the raw-text fallback gives the empty
   * slug, just as a blank city would.
   */
  lemma ParseBlankParts(city: string, stadium: string)
    requires '/' !in city && '/' !in stadium
    requires Strip(city) == "" && Strip(stadium) == ""
    ensures ParseLocation(Some(city + "/" + stadium)).slug == Some("")
  {
    ParseCityAndStadium(city, stadium);
    StripEmptyAllSpace(city);
    StripEmptyAllSpace(stadium);
    var t := city + "/" + stadium;
    assert forall i :: 0 <= i < |t| ==> IsSpace(t[i]) || t[i] == '/' by {
      assert forall i :: 0 <= i < |city| ==> t[i] == city[i];
      assert t[|city|] == '/';
      assert forall i :: |city| < i < |t| ==> t[i] == stadium[i - |city| - 1];
    }
    SlugOfSeparators(t);
  }

  /** Text made only of whitespace slugs to "". */
  lemma SlugOfBlank(t: string)
    requires forall i :: 0 <= i < |t| ==> IsSpace(t[i])
    ensures Slug(Some(t)) == ""
  {
    SlugOfSeparators(t);
  }

  // Two steps of the character loop, used to evaluate it on concrete text.

  lemma {:induction false} DashesAlnum(p: string, w: string)
    requires forall i :: 0 <= i < |w| ==> IsAlnum(w[i])
    ensures Dashes(p + w) == Dashes(p) + w
  {
    if w == [] {
      assert p + w == p;
    } else {
      var w', c := w[..|w| - 1], w[|w| - 1];
      DashesAlnum(p, w');
      SnocSplit(p, w);
      DashesSnoc(p + w', c);
      AppendAssoc4(Dashes(p), w', [c], "");
    }
  }

  lemma SnocSplit<T>(p: seq<T>, w: seq<T>)
    requires w != []
    ensures p + w == (p + w[..|w| - 1]) + [w[|w| - 1]]
    ensures w == w[..|w| - 1] + [w[|w| - 1]]
  {
  }

  lemma DashesSeparator(p: string, c: char)
    requires !IsAlnum(c)
    ensures Dashes(p + [c]) ==
      if Dashes(p) != [] && Dashes(p)[|Dashes(p)| - 1] == '-' then Dashes(p) else Dashes(p) + ['-']
  {
    assert (p + [c])[..|p + [c]| - 1] == p;
  }

  lemma {:induction false} ReplaceAmpWithoutAmp(s: string)
    requires '&' !in s
    ensures ReplaceAmp(s) == s
  {
    if s != [] {
      ReplaceAmpWithoutAmp(s[1..]);
      assert s == [s[0]] + s[1..];
    }
  }

  // The character loop on the lowered example location, a few characters at a time.

  lemma DashesExampleMemorial()
    ensures Dashes("memorial ") == "memorial-"
  {
    var s1 := "memorial";
    assert forall i :: 0 <= i < |s1| ==> IsAlnum(s1[i]);
    DashesAlnum([], s1);
    assert [] + s1 == s1;
    assert "memorial " == s1 + [' '];
    DashesSeparator(s1, ' ');
  }

  lemma DashesExampleStadium()
    ensures Dashes("memorial stadium") == "memorial-stadium"
  {
    DashesExampleMemorial();
    var w := "stadium";
    assert forall i :: 0 <= i < |w| ==> IsAlnum(w[i]);
    DashesAlnum("memorial ", w);
    assert "memorial " + w == "memorial stadium";
  }

  lemma DashesExampleLincoln()
    ensures Dashes("memorial stadium-lincoln") == "memorial-stadium-lincoln"
  {
    var s3 := "memorial stadium";
    DashesExampleStadium();
    var s4 := "memorial stadium-";
    assert Dashes(s4) == "memorial-stadium-" by { assert s4 == s3 + ['-']; DashesSeparator(s3, '-'); }
    assert "memorial stadium-lincoln" == s4 + "lincoln";
    DashesAlnum(s4, "lincoln");
  }

  lemma DashesExampleComma()
    ensures Dashes("memorial stadium-lincoln, ") == "memorial-stadium-lincoln-"
  {
    var s5 := "memorial stadium-lincoln";
    DashesExampleLincoln();
    var s6 := "memorial stadium-lincoln,";
    assert Dashes(s6) == "memorial-stadium-lincoln-" by { assert s6 == s5 + [',']; DashesSeparator(s5, ','); }
    assert "memorial stadium-lincoln, " == s6 + [' '];
    DashesSeparator(s6, ' ');
  }

  lemma DashesExample()
    ensures Dashes("memorial stadium-lincoln, neb.") == "memorial-stadium-lincoln-neb-"
  {
    var s7 := "memorial stadium-lincoln, ";
    DashesExampleComma();
    var s8 := "memorial stadium-lincoln, neb";
    assert Dashes(s8) == "memorial-stadium-lincoln-neb" by { assert s8 == s7 + "neb"; DashesAlnum(s7, "neb"); }
    assert "memorial stadium-lincoln, neb." == s8 + ['.'];
    DashesSeparator(s8, '.');
  }

  lemma LowerAppend(a: string, b: string)
    ensures Lower(a + b) == Lower(a) + Lower(b)
  {
  }

  lemma LowerExampleStadium()
    ensures Lower("Memorial Stadium") == "memorial stadium"
  {
  }

  lemma LowerExampleCity()
    ensures Lower("-Lincoln, Neb.") == "-lincoln, neb."
  {
  }

  lemma LowerExample()
    ensures Lower("Memorial Stadium-Lincoln, Neb.") == "memorial stadium-lincoln, neb."
  {
    LowerExampleStadium();
    LowerExampleCity();
    LowerAppend("Memorial Stadium", "-Lincoln, Neb.");
    assert "Memorial Stadium" + "-Lincoln, Neb." == "Memorial Stadium-Lincoln, Neb.";
    assert "memorial stadium" + "-lincoln, neb." == "memorial stadium-lincoln, neb.";
  }

  lemma StripDashesExample()
    ensures StripDashes("memorial-stadium-lincoln-neb-") == "memorial-stadium-lincoln-neb"
  {
    var d := "memorial-stadium-lincoln-neb-";
    assert DashRunEnd(d, 0) == 0;
    assert DashRunStart(d, 0, |d|) == |d| - 1 by {
      assert d[|d| - 1] == '-' && d[|d| - 2] != '-';
    }
    assert d[0..|d| - 1] == "memorial-stadium-lincoln-neb";
  }

  lemma LoweredExample()
    ensures ReplaceAmp(Lower("Memorial Stadium-Lincoln, Neb.")) == "memorial stadium-lincoln, neb."
  {
    LowerExample();
    ReplaceAmpWithoutAmp("memorial stadium-lincoln, neb.");
  }

  lemma StrippedExample()
    ensures StripDashes(Dashes("memorial stadium-lincoln, neb.")) == "memorial-stadium-lincoln-neb"
    ensures !HasDoubleDash("memorial-stadium-lincoln-neb")
  {
    var lowered := "memorial stadium-lincoln, neb.";
    DashesExample();
    StripDashesExample();
    assert NoUpper(lowered);
    DashesShape(lowered);
    StripDashesShape(Dashes(lowered));
  }

  /** `slugify("Memorial Stadium-Lincoln, Neb.")` is "memorial-stadium-lincoln-neb". */
  lemma SlugExample()
    ensures Slug(Some("Memorial Stadium-Lincoln, Neb.")) == "memorial-stadium-lincoln-neb"
  {
    LoweredExample();
    StrippedExample();
  }

  lemma StripExampleCity()
    ensures Strip("Lincoln, Neb. ") == "Lincoln, Neb."
  {
    var city := "Lincoln, Neb. ";
    assert LeadingSpaces(city) == 0;
    assert SpaceRunStart(city, 0, |city|) == |city| - 1 by {
      assert IsSpace(city[|city| - 1]) && !IsSpace(city[|city| - 2]);
    }
    assert city[..|city| - 1] == "Lincoln, Neb.";
  }

  lemma StripExampleStadium()
    ensures Strip(" Memorial Stadium") == "Memorial Stadium"
  {
    var stadium := " Memorial Stadium";
    assert LeadingSpaces(stadium) == 1 by {
      assert stadium[1..] == "Memorial Stadium";
      assert LeadingSpaces("Memorial Stadium") == 0;
    }
    assert SpaceRunStart(stadium, 1, |stadium|) == |stadium|;
    assert stadium[1..] == "Memorial Stadium";
  }

  lemma ParseCityAndStadiumTo(city: string, stadium: string, c: string, st: string, slug: string)
    requires '/' !in city && '/' !in stadium
    requires Strip(city) == c && Strip(stadium) == st && st != ""
    requires Slug(Some(st + "-" + c)) == slug
    ensures ParseLocation(Some(city + "/" + stadium)) == Location(Some(c), Some(st), Some(slug))
  {
    ParseCityAndStadium(city, stadium);
    assert SlugBase(city + "/" + stadium, c, Some(st)) == st + "-" + c;
  }

  lemma SlugOfExampleBase()
    ensures Slug(Some("Memorial Stadium" + "-" + "Lincoln, Neb.")) == "memorial-stadium-lincoln-neb"
  {
    assert "Memorial Stadium" + "-" + "Lincoln, Neb." == "Memorial Stadium-Lincoln, Neb.";
    SlugExample();
  }

  lemma ExampleLocationText()
    ensures "Lincoln, Neb. / Memorial Stadium" == "Lincoln, Neb. " + "/" + " Memorial Stadium"
  {
  }

  lemma NoSlashInExample()
    ensures '/' !in "Lincoln, Neb. " && '/' !in " Memorial Stadium"
  {
  }

  lemma ParseExampleParts()
    ensures ParseLocation(Some("Lincoln, Neb. " + "/" + " Memorial Stadium")) ==
      Location(Some("Lincoln, Neb."), Some("Memorial Stadium"), Some("memorial-stadium-lincoln-neb"))
  {
    SlugOfExampleBase();
    StripExampleCity();
    StripExampleStadium();
    NoSlashInExample();
    ParseCityAndStadiumTo("Lincoln, Neb. ", " Memorial Stadium", "Lincoln, Neb.", "Memorial Stadium",
                          "memorial-stadium-lincoln-neb");
  }

  /** `parse_location("Lincoln, Neb. / Memorial Stadium")`. */
  lemma ParseLocationExample()
    ensures ParseLocation(Some("Lincoln, Neb. / Memorial Stadium")) ==
      Location(Some("Lincoln, Neb."), Some("Memorial Stadium"), Some("memorial-stadium-lincoln-neb"))
  {
    ExampleLocationText();
    ParseExampleParts();
  }
}
