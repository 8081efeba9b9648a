/**
 * The Python string primitives the scrapers and the manifest builder use:
 * `str.isspace`, `str.strip()`, `str.split()`, `" ".join(...)`,
 * `str.split("/")` and `str.startswith`.
 */
module Text {

  /** Python's `str.isspace` for one character (the full list of code points it accepts). */
  predicate IsSpace(c: char) {
    || ('\t' <= c <= '\r')
    || ('\U{1C}' <= c <= ' ')
    || c == '\U{85}' || c == '\U{A0}' || c == '\U{1680}'
    || ('\U{2000}' <= c <= '\U{200A}')
    || c == '\U{2028}' || c == '\U{2029}' || c == '\U{202F}' || c == '\U{205F}' || c == '\U{3000}'
  }

  predicate NoSpace(s: string) {
    forall i :: 0 <= i < |s| ==> !IsSpace(s[i])
  }


  predicate StartsWith(s: string, prefix: string) {
    |prefix| <= |s| && s[..|prefix|] == prefix
  }

  /** The number of whitespace characters `s` starts with. */
  function LeadingSpaces(s: string): (n: nat)
    ensures n <= |s|
    ensures forall k :: 0 <= k < n ==> IsSpace(s[k])
    ensures n < |s| ==> !IsSpace(s[n])
  {
    if s == [] || !IsSpace(s[0]) then 0 else 1 + LeadingSpaces(s[1..])
  }

  /** Where the run of whitespace that ends at index `j` of `s` starts, looking no further left than `lo`. */
  function SpaceRunStart(s: string, lo: nat, j: nat): (e: nat)
    requires lo <= j <= |s|
    ensures lo <= e <= j
    ensures forall k :: e <= k < j ==> IsSpace(s[k])
    ensures e > lo ==> !IsSpace(s[e - 1])
    decreases j
  {
    if j == lo || !IsSpace(s[j - 1]) then j else SpaceRunStart(s, lo, j - 1)
  }

  /** `s.lstrip()`. */
  function StripLeft(s: string): string {
    s[LeadingSpaces(s)..]
  }

  /** `s.strip()`: drops leading and trailing whitespace and nothing else. */
  function Strip(s: string): (r: string)
    ensures r == [] || (!IsSpace(r[0]) && !IsSpace(r[|r| - 1]))
    ensures LeadingSpaces(s) + |r| <= |s|
    ensures r == s[LeadingSpaces(s)..LeadingSpaces(s) + |r|]
    ensures forall k :: 0 <= k < LeadingSpaces(s) ==> IsSpace(s[k])
    ensures forall k :: LeadingSpaces(s) + |r| <= k < |s| ==> IsSpace(s[k])
  {
    var i := LeadingSpaces(s);
    s[i..SpaceRunStart(s, i, |s|)]
  }

  /** The length of the longest prefix of `s` that holds no whitespace. */
  function WordLength(s: string): (n: nat)
    ensures n <= |s| && NoSpace(s[..n])
    ensures n < |s| ==> IsSpace(s[n])
  {
    if s == [] || IsSpace(s[0]) then 0 else 1 + WordLength(s[1..])
  }

  /** Tokens of the kind `str.split()` returns: non-empty and free of whitespace. */
  predicate Words(ws: seq<string>) {
    forall i :: 0 <= i < |ws| ==> ws[i] != [] && NoSpace(ws[i])
  }

  /** `s.split()`: the maximal runs of non-whitespace characters, in order. */
  function Split(s: string): (ws: seq<string>)
    ensures Words(ws)
    decreases |s|
  {
    var t := StripLeft(s);
    if t == [] then []
    else
      var n := WordLength(t);
      [t[..n]] + Split(t[n..])
  }

  /** `sep.join(ws)`. */
  function Join(sep: string, ws: seq<string>): string {
    if ws == [] then []
    else if |ws| == 1 then ws[0]
    else ws[0] + sep + Join(sep, ws[1..])
  }

  /** Joining one more part appends the separator and that part. */
  lemma {:induction false} JoinSnoc(sep: string, xs: seq<string>, w: string)
    ensures Join(sep, xs + [w]) == if xs == [] then w else Join(sep, xs) + sep + w
  {
    if xs == [] {
      assert xs + [w] == [w];
    } else if |xs| == 1 {
      assert xs + [w] == [xs[0], w];
      assert [xs[0], w][1..] == [w];
    } else {
      var h, t := xs[0], xs[1..];
      assert (xs + [w])[0] == h && (xs + [w])[1..] == t + [w];
      assert Join(sep, xs + [w]) == h + sep + Join(sep, t + [w]);
      JoinSnoc(sep, t, w);
      assert Join(sep, xs) == h + sep + Join(sep, t);
      AppendAssoc4(h + sep, Join(sep, t), sep, w);
    }
  }

  lemma AppendAssoc4(a: string, b: string, c: string, d: string)
    ensures a + (b + c + d) == a + b + c + d
  {
  }

  /** `" ".join(s.split())`, the whitespace normalisation both scrapers apply. */
  function NormalizeSpace(s: string): string {
    Join(" ", Split(s))
  }

  /**
   * What a whitespace-normalised string looks like: no whitespace at either end,
   * and every whitespace character is a single ' ' between two non-space characters.
   */
  predicate Normalized(t: string) {
    && (t == [] || (!IsSpace(t[0]) && !IsSpace(t[|t| - 1])))
    && forall i :: 0 <= i < |t| && IsSpace(t[i]) ==>
         t[i] == ' ' && 0 < i < |t| - 1 && !IsSpace(t[i - 1]) && !IsSpace(t[i + 1])
  }

  /** The non-whitespace characters of `s`, in order. */
  function NonSpaces(s: string): string {
    if s == [] then []
    else (if IsSpace(s[0]) then [] else [s[0]]) + NonSpaces(s[1..])
  }

  lemma {:induction false} NonSpacesAppend(a: string, b: string)
    ensures NonSpaces(a + b) == NonSpaces(a) + NonSpaces(b)
  {
    if a != [] {
      assert (a + b)[0] == a[0];
      assert (a + b)[1..] == a[1..] + b;
      NonSpacesAppend(a[1..], b);
      assert NonSpaces(a + b) == (if IsSpace(a[0]) then [] else [a[0]]) + NonSpaces(a[1..] + b);
    } else {
      assert a + b == b;
    }
  }

  lemma {:induction false} NonSpacesOfSpaces(s: string)
    requires forall k :: 0 <= k < |s| ==> IsSpace(s[k])
    ensures NonSpaces(s) == []
  {
    if s != [] {
      NonSpacesOfSpaces(s[1..]);
    }
  }

  lemma {:induction false} NonSpacesOfWord(s: string)
    requires NoSpace(s)
    ensures NonSpaces(s) == s
  {
    if s != [] {
      NonSpacesOfWord(s[1..]);
    }
  }

  /** Joining words with single spaces gives a normalised string. */
  lemma {:induction false} JoinWordsNormalized(ws: seq<string>)
    requires Words(ws)
    ensures Normalized(Join(" ", ws))
  {
    if |ws| > 1 {
      var w, rest := ws[0], Join(" ", ws[1..]);
      JoinWordsNormalized(ws[1..]);
      assert ws[1] != [] && ws[1][0] == Join(" ", ws[1..])[0] by {
        if |ws| == 2 {
        } else {
          assert Join(" ", ws[1..]) == ws[1] + " " + Join(" ", ws[2..]);
        }
      }
      var t := w + " " + rest;
      assert t == Join(" ", ws);
      assert forall i :: 0 <= i < |w| ==> t[i] == w[i] && !IsSpace(t[i]);
      forall i | |w| <= i < |t| && IsSpace(t[i])
        ensures t[i] == ' ' && 0 < i < |t| - 1 && !IsSpace(t[i - 1]) && !IsSpace(t[i + 1])
      {
        if i == |w| {
          assert t[i + 1] == rest[0];
        } else {
          assert t[i] == rest[i - |w| - 1];
          assert t[i + 1] == rest[i - |w|];
          if i - |w| - 1 > 0 {
            assert t[i - 1] == rest[i - |w| - 2];
          }
        }
      }
      assert t[|t| - 1] == rest[|rest| - 1];
    }
  }

  /** The normalised string has no whitespace at its ends and no two whitespace characters in a row. */
  lemma NormalizeSpaceNormalized(s: string)
    ensures Normalized(NormalizeSpace(s))
  {
    JoinWordsNormalized(Split(s));
  }

  lemma JoinConsNonSpaces(w: string, rest: seq<string>)
    requires NoSpace(w)
    ensures NonSpaces(Join(" ", [w] + rest)) == w + NonSpaces(Join(" ", rest))
  {
    NonSpacesOfWord(w);
    if rest == [] {
      assert Join(" ", [w]) == w;
      assert w + [] == w;
    } else {
      var j := Join(" ", rest);
      assert ([w] + rest)[1..] == rest;
      assert Join(" ", [w] + rest) == w + (" " + j);
      NonSpacesAppend(w, " " + j);
      assert (" " + j)[1..] == j;
    }
  }

  lemma StripLeftNonSpaces(s: string)
    ensures NonSpaces(StripLeft(s)) == NonSpaces(s)
  {
    var k := LeadingSpaces(s);
    assert s == s[..k] + StripLeft(s);
    NonSpacesAppend(s[..k], StripLeft(s));
    NonSpacesOfSpaces(s[..k]);
  }

  /** The first word of `t` followed by the non-whitespace of the text after it. */
  lemma FirstWordNonSpaces(t: string)
    ensures NonSpaces(t) == t[..WordLength(t)] + NonSpaces(t[WordLength(t)..])
  {
    var n := WordLength(t);
    assert t == t[..n] + t[n..];
    NonSpacesAppend(t[..n], t[n..]);
    NonSpacesOfWord(t[..n]);
  }

  /** Normalisation keeps every non-whitespace character, in order, and adds none. */
  lemma {:induction false} NormalizeSpaceKeepsText(s: string)
    ensures NonSpaces(NormalizeSpace(s)) == NonSpaces(s)
    decreases |s|
  {
    var t := StripLeft(s);
    StripLeftNonSpaces(s);
    if t != [] {
      var n := WordLength(t);
      FirstWordNonSpaces(t);
      NormalizeSpaceKeepsText(t[n..]);
      JoinConsNonSpaces(t[..n], Split(t[n..]));
    } else {
      assert NonSpaces(t) == [];
    }
  }

  lemma StripLeftSpace(x: string)
    ensures StripLeft(" " + x) == StripLeft(x)
  {
    var t := " " + x;
    assert t[1..] == x;
    assert LeadingSpaces(t) == 1 + LeadingSpaces(x);
    assert t[1 + LeadingSpaces(x)..] == x[LeadingSpaces(x)..];
  }

  /** A leading space does not change the split. */
  lemma SplitSpace(x: string)
    ensures Split(" " + x) == Split(x)
  {
    StripLeftSpace(x);
  }

  lemma {:induction false} WordLengthOfWord(w: string, y: string)
    requires NoSpace(w)
    requires y == [] || IsSpace(y[0])
    ensures WordLength(w + y) == |w|
  {
    if w != [] {
      assert (w + y)[1..] == w[1..] + y;
      WordLengthOfWord(w[1..], y);
    } else {
      assert w + y == y;
    }
  }

  /** A word followed by whitespace or nothing splits into that word and the split of the rest. */
  lemma SplitWordFirst(w: string, y: string)
    requires w != [] && NoSpace(w)
    requires y == [] || IsSpace(y[0])
    ensures Split(w + y) == [w] + Split(y)
  {
    var t := w + y;
    assert t[0] == w[0];
    assert LeadingSpaces(t) == 0;
    assert StripLeft(t) == t;
    WordLengthOfWord(w, y);
    assert t[..|w|] == w;
    assert t[|w|..] == y;
  }

  lemma SplitJoinCons(w: string, rest: seq<string>)
    requires w != [] && NoSpace(w) && rest != []
    ensures Split(Join(" ", [w] + rest)) == [w] + Split(Join(" ", rest))
  {
    var j := Join(" ", rest);
    assert ([w] + rest)[1..] == rest;
    assert Join(" ", [w] + rest) == w + (" " + j);
    SplitWordFirst(w, " " + j);
    SplitSpace(j);
  }

  /** Round trip: splitting words joined by single spaces gives the words back. */
  lemma {:induction false} SplitJoin(ws: seq<string>)
    requires Words(ws)
    ensures Split(Join(" ", ws)) == ws
  {
    if |ws| == 1 {
      SplitWordFirst(ws[0], []);
      assert ws[0] + [] == ws[0];
    } else if |ws| > 1 {
      assert ws == [ws[0]] + ws[1..];
      SplitJoinCons(ws[0], ws[1..]);
      SplitJoin(ws[1..]);
    }
  }

  /** Normalising an already normalised result changes nothing. */
  lemma NormalizeSpaceIdempotent(s: string)
    ensures NormalizeSpace(NormalizeSpace(s)) == NormalizeSpace(s)
  {
    SplitJoin(Split(s));
  }

  /** Two words separated by one space split into those two words. */
  lemma SplitTwoWords(a: string, b: string)
    requires a != [] && NoSpace(a) && b != [] && NoSpace(b)
    ensures Split(a + " " + b) == [a, b]
  {
    var y := " " + b;
    assert a + " " + b == a + y;
    assert IsSpace(y[0]);
    SplitWordFirst(a, y);
    SplitSpace(b);
    SplitOneWord(b);
  }

  lemma SplitOneWord(b: string)
    requires b != [] && NoSpace(b)
    ensures Split(b) == [b]
  {
    assert b + "" == b;
    SplitWordFirst(b, "");
    assert LeadingSpaces("") == 0;
  }

  /** A leading whitespace character, of any kind, does not change the split. */
  lemma SplitSpaceChar(c: char, x: string)
    requires IsSpace(c)
    ensures Split([c] + x) == Split(x)
  {
    var t := [c] + x;
    assert t[1..] == x;
    assert LeadingSpaces(t) == 1 + LeadingSpaces(x);
    assert t[1 + LeadingSpaces(x)..] == x[LeadingSpaces(x)..];
  }

  /** Leading whitespace does not change the split. */
  lemma {:induction false} SplitLeadingSpaces(w: string, x: string)
    requires forall k :: 0 <= k < |w| ==> IsSpace(w[k])
    ensures Split(w + x) == Split(x)
  {
    if w == [] {
      assert w + x == x;
    } else {
      var t := w[1..] + x;
      assert Split(t) == Split(x) by {
        SplitLeadingSpaces(w[1..], x);
      }
      assert Split(w + x) == Split(t) by {
        assert w + x == [w[0]] + t;
        SplitSpaceChar(w[0], t);
      }
    }
  }

  /** Text made only of whitespace has no words. */
  lemma SplitOfSpaces(w: string)
    requires forall k :: 0 <= k < |w| ==> IsSpace(w[k])
    ensures Split(w) == []
  {
    SplitLeadingSpaces(w, []);
    assert w + [] == w;
  }

  /**
   * Words break at whitespace: splitting `a`, a non-empty run of whitespace
   * and `b` gives the words of `a` followed by the words of `b`.
   */
  lemma {:induction false} SplitAtSpaces(a: string, w: string, b: string)
    requires w != [] && forall k :: 0 <= k < |w| ==> IsSpace(w[k])
    ensures Split(a + w + b) == Split(a) + Split(b)
    decreases |a|
  {
    if a == [] {
      SplitAtSpacesEmpty(w, b);
    } else if IsSpace(a[0]) {
      SplitAtSpaces(a[1..], w, b);
      SplitAtSpacesSpace(a, w, b);
    } else {
      SplitAtSpaces(a[WordLength(a)..], w, b);
      SplitAtSpacesWord(a, w, b);
    }
  }

  /** Stripping does not change the words. */
  lemma SplitStrip(s: string)
    ensures Split(Strip(s)) == Split(s)
  {
    var i, r := LeadingSpaces(s), Strip(s);
    var e := i + |r|;
    var front, back := s[..i], s[e..];
    assert forall k :: 0 <= k < |front| ==> IsSpace(front[k]) by {
      assert forall k :: 0 <= k < |front| ==> front[k] == s[k];
    }
    assert forall k :: 0 <= k < |back| ==> IsSpace(back[k]) by {
      assert forall k :: 0 <= k < |back| ==> back[k] == s[e + k];
    }
    Reassemble(s, i, r);
    calc {
      Split(s);
      Split(front + (r + back));
      { SplitLeadingSpaces(front, r + back); }
      Split(r + back);
      { SplitTrailingSpaces(r, back); }
      Split(r);
    }
  }

  /** Trailing whitespace does not change the split. */
  lemma SplitTrailingSpaces(r: string, back: string)
    requires forall k :: 0 <= k < |back| ==> IsSpace(back[k])
    ensures Split(r + back) == Split(r)
  {
    if back == [] {
      assert r + back == r;
    } else {
      assert r + back + [] == r + back;
      SplitAtSpaces(r, back, []);
      SplitOfSpaces([]);
      assert Split(r) + [] == Split(r);
    }
  }

  lemma Reassemble<T>(s: seq<T>, i: nat, r: seq<T>)
    requires i + |r| <= |s| && r == s[i..i + |r|]
    ensures s == s[..i] + (r + s[i + |r|..])
  {
  }

  /** The words of each text, one text after another. */
  function SplitEach(ts: seq<string>): seq<string> {
    if ts == [] then [] else Split(ts[0]) + SplitEach(ts[1..])
  }

  /** Texts joined with a space keep their words apart: the words are those of each text in turn. */
  lemma {:induction false} SplitJoinSpaced(ts: seq<string>)
    ensures Split(Join(" ", ts)) == SplitEach(ts)
  {
    if ts == [] {
      SplitOfSpaces([]);
    } else if |ts| == 1 {
      assert SplitEach(ts[1..]) == [];
      assert Split(ts[0]) + [] == Split(ts[0]);
    } else {
      var rest := Join(" ", ts[1..]);
      SplitJoinSpaced(ts[1..]);
      assert Join(" ", ts) == ts[0] + " " + rest;
      SplitAtSpaces(ts[0], " ", rest);
    }
  }

  /** The step of `SplitAtSpaces` when `a` starts with whitespace. */
  lemma SplitAtSpacesSpace(a: string, w: string, b: string)
    requires a != [] && IsSpace(a[0])
    requires Split(a[1..] + w + b) == Split(a[1..]) + Split(b)
    ensures Split(a + w + b) == Split(a) + Split(b)
  {
    SplitDropSpace(a, w, b);
    SplitDropSpaceAlone(a);
  }

  /** The step of `SplitAtSpaces` when `a` starts with a word. */
  lemma SplitAtSpacesWord(a: string, w: string, b: string)
    requires w != [] && IsSpace(w[0])
    requires a != [] && !IsSpace(a[0])
    requires Split(a[WordLength(a)..] + w + b) == Split(a[WordLength(a)..]) + Split(b)
    ensures Split(a + w + b) == Split(a) + Split(b)
  {
    var x := a[..WordLength(a)];
    var p, q := Split(a[WordLength(a)..]), Split(b);
    SplitFirstWordThen(a, w, b);
    SplitFirstWord(a);
    ConsAppend(x, p, q);
  }

  lemma ConsAppend<T>(x: T, p: seq<T>, q: seq<T>)
    ensures [x] + (p + q) == [x] + p + q
  {
  }

  lemma SplitAtSpacesEmpty(w: string, b: string)
    requires forall k :: 0 <= k < |w| ==> IsSpace(w[k])
    ensures Split([] + w + b) == Split([]) + Split(b)
  {
    assert [] + w + b == w + b;
    SplitLeadingSpaces(w, b);
  }

  lemma ConsConcat(a: string, w: string, b: string)
    requires a != []
    ensures a + w + b == [a[0]] + (a[1..] + w + b)
  {
    assert a == [a[0]] + a[1..];
  }

  /** Before whitespace, a text starting with whitespace splits like the text after that character. */
  lemma SplitDropSpace(a: string, w: string, b: string)
    requires a != [] && IsSpace(a[0])
    ensures Split(a + w + b) == Split(a[1..] + w + b)
  {
    ConsConcat(a, w, b);
    SplitSpaceChar(a[0], a[1..] + w + b);
  }

  lemma SplitDropSpaceAlone(a: string)
    requires a != [] && IsSpace(a[0])
    ensures Split(a) == Split(a[1..])
  {
    assert a == [a[0]] + a[1..];
    SplitSpaceChar(a[0], a[1..]);
  }

  lemma WordConcat(a: string, n: nat, w: string, b: string)
    requires n <= |a|
    ensures a == a[..n] + a[n..]
    ensures a + w + b == a[..n] + (a[n..] + w + b)
  {
    assert a == a[..n] + a[n..];
  }

  /** Before whitespace, a text starting with a word splits into that word and the rest. */
  lemma SplitFirstWordThen(a: string, w: string, b: string)
    requires w != [] && IsSpace(w[0])
    requires a != [] && !IsSpace(a[0])
    ensures Split(a + w + b) == [a[..WordLength(a)]] + Split(a[WordLength(a)..] + w + b)
  {
    var n := WordLength(a);
    var u, v := a[..n], a[n..];
    var y := v + w + b;
    WordConcat(a, n, w, b);
    assert u != [] by { assert u[0] == a[0]; }
    assert IsSpace(y[0]) by {
      if v == [] { assert y[0] == w[0]; } else { assert y[0] == a[n]; }
    }
    SplitWordFirst(u, y);
  }

  /** A text starting with a word splits into that word and the split of the rest. */
  lemma SplitFirstWord(a: string)
    requires a != [] && !IsSpace(a[0])
    ensures Split(a) == [a[..WordLength(a)]] + Split(a[WordLength(a)..])
  {
    var n := WordLength(a);
    assert a == a[..n] + a[n..];
    assert a[..n] != [] by { assert a[..n][0] == a[0]; }
    SplitWordFirst(a[..n], a[n..]);
  }

  lemma NonSpacesAppend3(a: string, m: string, z: string)
    ensures NonSpaces(a + m + z) == NonSpaces(a) + NonSpaces(m) + NonSpaces(z)
  {
    NonSpacesAppend(a + m, z);
    NonSpacesAppend(a, m);
  }

  lemma NonSpacesAroundSpaces(front: string, r: string, back: string)
    requires forall k :: 0 <= k < |front| ==> IsSpace(front[k])
    requires forall k :: 0 <= k < |back| ==> IsSpace(back[k])
    ensures NonSpaces(front + r + back) == NonSpaces(r)
  {
    NonSpacesAppend3(front, r, back);
    NonSpacesOfSpaces(front);
    NonSpacesOfSpaces(back);
  }

  /** Stripping drops only whitespace. */
  lemma StripNonSpaces(s: string)
    ensures NonSpaces(Strip(s)) == NonSpaces(s)
  {
    var r := Strip(s);
    var i := LeadingSpaces(s);
    var j := i + |r|;
    var front, back := s[..i], s[j..];
    assert s == front + r + back;
    NonSpacesAroundSpaces(front, r, back);
  }

  /** The index of the first `c` in `s`. */
  function IndexOf(s: string, c: char): (k: nat)
    requires c in s
    ensures k < |s| && s[k] == c && c !in s[..k]
  {
    if s[0] == c then 0
    else
      assert c in s[1..];
      1 + IndexOf(s[1..], c)
  }

  /** `s.split(sep)` for a one-character separator: always at least one part. */
  function SplitOn(s: string, sep: char): (parts: seq<string>)
    ensures |parts| >= 1
    ensures forall i :: 0 <= i < |parts| ==> sep !in parts[i]
    decreases |s|
  {
    if sep !in s then [s]
    else
      var k := IndexOf(s, sep);
      [s[..k]] + SplitOn(s[k + 1..], sep)
  }

  /** Round trip: joining the parts with the separator gives the input back. */
  lemma {:induction false} SplitOnJoin(s: string, sep: char)
    ensures Join([sep], SplitOn(s, sep)) == s
    decreases |s|
  {
    if sep in s {
      var k := IndexOf(s, sep);
      var rest := SplitOn(s[k + 1..], sep);
      SplitOnJoin(s[k + 1..], sep);
      assert SplitOn(s, sep) == [s[..k]] + rest;
      JoinCons([sep], s[..k], rest);
      assert s == s[..k] + [sep] + s[k + 1..];
    }
  }

  /** Joining a part before at least one more puts the separator between. */
  lemma JoinCons(sep: string, w: string, rest: seq<string>)
    requires rest != []
    ensures Join(sep, [w] + rest) == w + sep + Join(sep, rest)
  {
    assert ([w] + rest)[0] == w && ([w] + rest)[1..] == rest;
  }

  /** The first part ends at the first separator. */
  lemma SplitOnFirst(a: string, sep: char, b: string)
    requires sep !in a
    ensures SplitOn(a + [sep] + b, sep) == [a] + SplitOn(b, sep)
  {
    var s := a + [sep] + b;
    assert s[|a|] == sep;
    assert s[..|a|] == a;
    var k := IndexOf(s, sep);
    assert k <= |a| by {
      assert sep in s[..|a| + 1];
    }
    assert s[..k] == a;
    assert s[k + 1..] == b;
  }

  /** `[p.strip() for p in parts]`. */
  function StripAll(parts: seq<string>): (r: seq<string>)
    ensures |r| == |parts|
  {
    seq(|parts|, i requires 0 <= i < |parts| => Strip(parts[i]))
  }
}
