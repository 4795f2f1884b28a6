/**
 * The two string operations the stitcher relies on: `findall` of the fixed
 * 12-character timestamp pattern \d{2}:\d{2}:\d{2}[,.]\d{3}, and Python's
 * `str.replace`.
 */
module Scan {
  import opened Timestamp

  /** A token of the pattern starts at index `i` of `s`. */
  predicate TokenAt(s: string, i: nat)
  {
    i + TokenLength <= |s| && IsToken(s[i..i + TokenLength])
  }

  /**
   * The start indices `findall` reports when it scans `s` from `from`: at each index
   * it either matches a token and resumes after it, or moves on by one character.
   */
  function MatchPositions(s: string, from: nat): (ps: seq<nat>)
    decreases |s| - from
    ensures forall k :: 0 <= k < |ps| ==> from <= ps[k] && TokenAt(s, ps[k])
    ensures forall k :: 0 < k < |ps| ==> ps[k - 1] + TokenLength <= ps[k]
  {
    if from + TokenLength > |s| then []
    else if TokenAt(s, from) then [from] + MatchPositions(s, from + TokenLength)
    else MatchPositions(s, from + 1)
  }

  /** `timestamp_pattern.findall(s)`: the matched texts, left to right, never overlapping. */
  function FindAll(s: string): (ms: seq<string>)
    ensures |ms| == |MatchPositions(s, 0)|
    ensures forall k :: 0 <= k < |ms| ==> IsToken(ms[k])
    ensures forall k {:trigger MatchPositions(s, 0)[k]} :: 0 <= k < |ms| ==>
      ms[k] == s[MatchPositions(s, 0)[k]..MatchPositions(s, 0)[k] + TokenLength]
  {
    var ps := MatchPositions(s, 0);
    seq(|ps|, k requires 0 <= k < |ps| => s[ps[k]..ps[k] + TokenLength])
  }

  /**
   * The scan misses no token: every index where the pattern matches lies inside one
   * of the reported matches (it is reported itself, or it overlaps an earlier one).
   */
  lemma {:induction false} EveryTokenCovered(s: string, from: nat, j: nat)
    requires from <= j && TokenAt(s, j)
    decreases |s| - from
    ensures exists k :: (0 <= k < |MatchPositions(s, from)| &&
      MatchPositions(s, from)[k] <= j < MatchPositions(s, from)[k] + TokenLength)
  {
    var ps := MatchPositions(s, from);
    if TokenAt(s, from) {
      var rest := MatchPositions(s, from + TokenLength);
      assert ps == [from] + rest;
      if j >= from + TokenLength {
        EveryTokenCovered(s, from + TokenLength, j);
        var k :| 0 <= k < |rest| && rest[k] <= j < rest[k] + TokenLength;
        assert ps[k + 1] == rest[k];
      } else {
        assert ps[0] == from;
      }
    } else {
      assert j != from;
      assert ps == MatchPositions(s, from + 1);
      EveryTokenCovered(s, from + 1, j);
    }
  }

  predicate Occurs(s: string, pat: string, i: nat)
  {
    i + |pat| <= |s| && s[i..i + |pat|] == pat
  }

  /**
   * Python's `s.replace(pat, rep)` for a non-empty `pat`: scanning left to right,
   * every occurrence that does not overlap an occurrence already replaced is replaced.
   */
  function Replace(s: string, pat: string, rep: string): (r: string)
    requires |pat| > 0
    decreases |s|
    ensures |rep| == |pat| ==> |r| == |s|
    ensures pat == rep ==> r == s
    ensures (forall i :: 0 <= i <= |s| - |pat| ==> !Occurs(s, pat, i)) ==> r == s
  {
    if |s| < |pat| then s
    else if s[..|pat|] == pat then
      var r := rep + Replace(s[|pat|..], pat, rep);
      assert Occurs(s, pat, 0);
      r
    else
      var r := [s[0]] + Replace(s[1..], pat, rep);
      assert forall i :: 0 <= i <= |s[1..]| - |pat| && Occurs(s[1..], pat, i) ==> Occurs(s, pat, i + 1);
      r
  }

  /**
   * An occurrence at `q` that no earlier occurrence overlaps is replaced, when the
   * replacement has the pattern's length.
   */
  lemma {:induction false} ReplaceHits(s: string, pat: string, rep: string, q: nat)
    requires |pat| > 0 && |rep| == |pat| && Occurs(s, pat, q)
    requires forall i: nat :: q < i + |pat| && i < q ==> !Occurs(s, pat, i)
    decreases |s|
    ensures Replace(s, pat, rep)[q..q + |pat|] == rep
  {
    var n := |pat|;
    if s[..n] == pat {
      if q != 0 {
        assert Occurs(s, pat, 0);
        SkipPrefix(s, pat, rep, rep, q);
      }
    } else {
      assert q != 0;
      SkipPrefix(s, pat, rep, [s[0]], q);
    }
  }

  /** The induction step of ReplaceHits: the occurrence lies past the `head` already emitted. */
  lemma {:induction false} SkipPrefix(s: string, pat: string, rep: string, head: string, q: nat)
    requires |pat| > 0 && |rep| == |pat| && Occurs(s, pat, q)
    requires forall i: nat :: q < i + |pat| && i < q ==> !Occurs(s, pat, i)
    requires 0 < |head| <= q && |s| >= |pat|
    requires Replace(s, pat, rep) == head + Replace(s[|head|..], pat, rep)
    decreases |s|, 0
    ensures Replace(s, pat, rep)[q..q + |pat|] == rep
  {
    var n, d := |pat|, |head|;
    var tail := s[d..];
    OccursInSuffix(s, pat, d, q - d);
    forall i: nat | q - d < i + n && i < q - d
      ensures !Occurs(tail, pat, i)
    {
      OccursInSuffix(s, pat, d, i);
    }
    ReplaceHits(tail, pat, rep, q - d);
    var rt := Replace(tail, pat, rep);
    SliceOfAppend(head, rt, q, q + n);
  }

  lemma SliceOfAppend<T>(a: seq<T>, b: seq<T>, i: nat, j: nat)
    requires |a| <= i <= j <= |a| + |b|
    ensures (a + b)[i..j] == b[i - |a|..j - |a|]
  {
  }

  lemma OccursInSuffix(s: string, pat: string, d: nat, i: nat)
    requires d <= |s|
    ensures Occurs(s[d..], pat, i) <==> Occurs(s, pat, i + d)
  {
    if i + |pat| <= |s| - d {
      assert s[d..][i..i + |pat|] == s[i + d..i + d + |pat|];
    }
  }

  /**
   * Replacing in a concatenation replaces in each part, when no occurrence of the
   * pattern straddles the boundary.
   */
  lemma {:induction false} ReplaceAppend(x: string, y: string, pat: string, rep: string)
    requires |pat| > 0
    requires forall i: nat :: i < |x| < i + |pat| ==> !Occurs(x + y, pat, i)
    decreases |x|, 2
    ensures Replace(x + y, pat, rep) == Replace(x, pat, rep) + Replace(y, pat, rep)
  {
    var s := x + y;
    if x == [] {
      assert s == y;
    } else if |x| < |pat| {
      assert !Occurs(s, pat, 0);
      if |s| < |pat| {
        assert Replace(y, pat, rep) == y;
      } else {
        assert s[..|pat|] != pat;
        assert Replace(x[1..], pat, rep) == x[1..];
        assert x == [x[0]] + x[1..];
        ReplaceAppendStep(x, y, pat, rep, 1, [x[0]]);
      }
    } else if x[..|pat|] == pat {
      assert s[..|pat|] == x[..|pat|];
      ReplaceAppendStep(x, y, pat, rep, |pat|, rep);
    } else {
      assert s[..|pat|] == x[..|pat|];
      ReplaceAppendStep(x, y, pat, rep, 1, [x[0]]);
    }
  }

  /** The step of ReplaceAppend: both scans emit the same `head` for the first `d` characters. */
  lemma {:induction false} ReplaceAppendStep(x: string, y: string, pat: string, rep: string, d: nat, head: string)
    requires |pat| > 0 && 0 < d <= |x|
    requires forall i: nat :: i < |x| < i + |pat| ==> !Occurs(x + y, pat, i)
    requires Replace(x + y, pat, rep) == head + Replace((x + y)[d..], pat, rep)
    requires Replace(x, pat, rep) == head + Replace(x[d..], pat, rep)
    decreases |x|, 1
    ensures Replace(x + y, pat, rep) == Replace(x, pat, rep) + Replace(y, pat, rep)
  {
    ReplaceAppendTail(x, y, pat, rep, d);
    ConcatStep(Replace(x + y, pat, rep), Replace((x + y)[d..], pat, rep), Replace(x, pat, rep), head,
               Replace(x[d..], pat, rep), Replace(y, pat, rep));
  }

  /** ReplaceAppend on what is left of `x` after its first `d` characters. */
  lemma {:induction false} ReplaceAppendTail(x: string, y: string, pat: string, rep: string, d: nat)
    requires |pat| > 0 && 0 < d <= |x|
    requires forall i: nat :: i < |x| < i + |pat| ==> !Occurs(x + y, pat, i)
    decreases |x|, 0
    ensures Replace((x + y)[d..], pat, rep) == Replace(x[d..], pat, rep) + Replace(y, pat, rep)
  {
    assert (x + y)[d..] == x[d..] + y;
    NoStraddleInSuffix(x, y, pat, d);
    ReplaceAppend(x[d..], y, pat, rep);
  }

  /** Two outputs that share a head and then differ by a tail. */
  lemma ConcatStep(whole: string, tail: string, part: string, head: string, a: string, b: string)
    requires whole == head + tail && tail == a + b && part == head + a
    ensures whole == part + b
  {
    ConcatAssociative(head, a, b);
  }

  lemma ConcatAssociative(a: string, b: string, c: string)
    ensures a + (b + c) == (a + b) + c
  {
  }

  /** Dropping a prefix of `x` keeps the boundary free of straddling occurrences. */
  lemma NoStraddleInSuffix(x: string, y: string, pat: string, d: nat)
    requires d <= |x|
    requires forall i: nat :: i < |x| < i + |pat| ==> !Occurs(x + y, pat, i)
    ensures forall i: nat :: i < |x[d..]| < i + |pat| ==> !Occurs(x[d..] + y, pat, i)
  {
    assert (x + y)[d..] == x[d..] + y;
    forall i: nat | i < |x[d..]| < i + |pat|
      ensures !Occurs(x[d..] + y, pat, i)
    {
      OccursInSuffix(x + y, pat, d, i);
    }
  }

  /** A string of the pattern's length is replaced iff it is the pattern. */
  lemma ReplaceWord(t: string, pat: string, rep: string)
    requires |pat| > 0 && |t| == |pat|
    ensures Replace(t, pat, rep) == if t == pat then rep else t
  {
    if t != pat {
      assert t[..|pat|] == t;
      assert Replace(t[1..], pat, rep) == t[1..];
      assert t == [t[0]] + t[1..];
    } else {
      assert t[..|pat|] == t;
      assert Replace(t[|pat|..], pat, rep) == [];
    }
  }

  /** A pattern without a space is replaced on each side of a space separately. */
  lemma ReplaceAroundSpace(x: string, y: string, pat: string, rep: string)
    requires |pat| > 0 && forall j :: 0 <= j < |pat| ==> pat[j] != ' '
    ensures Replace(x + " " + y, pat, rep) == Replace(x, pat, rep) + " " + Replace(y, pat, rep)
  {
    var rx, ry := Replace(x, pat, rep), Replace(y, pat, rep);
    assert Replace(x + (" " + y), pat, rep) == rx + Replace(" " + y, pat, rep) by {
      NoOccurrenceOverSpace(x + (" " + y), |x|, pat);
      ReplaceAppend(x, " " + y, pat, rep);
    }
    ReplaceAfterSpace(y, pat, rep);
    assert x + " " + y == x + (" " + y);
    ConcatAssociative(rx, " ", ry);
  }

  /** A leading space is kept and the rest is replaced. */
  lemma ReplaceAfterSpace(y: string, pat: string, rep: string)
    requires |pat| > 0 && forall j :: 0 <= j < |pat| ==> pat[j] != ' '
    ensures Replace(" " + y, pat, rep) == " " + Replace(y, pat, rep)
  {
    NoOccurrenceOverSpace(" " + y, 0, pat);
    ReplaceAppend(" ", y, pat, rep);
    assert Replace(" ", pat, rep) == " " by {
      if |pat| == 1 {
        assert " "[..1] != pat;
      }
    }
  }

  /** No occurrence of a space-free pattern covers a space. */
  lemma NoOccurrenceOverSpace(s: string, p: nat, pat: string)
    requires forall j :: 0 <= j < |pat| ==> pat[j] != ' '
    requires p < |s| && s[p] == ' '
    ensures forall i: nat :: i <= p < i + |pat| ==> !Occurs(s, pat, i)
  {
    forall i: nat | i <= p < i + |pat|
      ensures !Occurs(s, pat, i)
    {
      if i + |pat| <= |s| {
        assert s[i..i + |pat|][p - i] == ' ';
        assert pat[p - i] != ' ';
      }
    }
  }

  /**
   * A rendering past 99 hours is no longer one match: the scan reads its last twelve
   * characters, so `100:00:00,000` is read back as `00:00:00,000`.
   */
  lemma HundredHoursReadFromSecondDigit(s: string)
    requires s == "100:00:00,000"
    ensures MatchPositions(s, 0) == [1]
    ensures FindAll(s) == ["00:00:00,000"]
  {
    assert !TokenAt(s, 0) by {
      assert s[0..12][2] == '0';
    }
    assert TokenAt(s, 1) by {
      assert s[1..13] == "00:00:00,000";
      assert s[1..13][..2] == "00";
    }
    assert MatchPositions(s, 13) == [];
    assert MatchPositions(s, 1) == [1];
    var ms := FindAll(s);
    assert MatchPositions(s, 0)[0] == 1;
    assert |ms| == 1 && ms[0] == s[1..13];
  }

  /** `b` is `a` with some dots written as commas, and nothing else changed. */
  predicate DotsToCommas(a: string, b: string)
  {
    |a| == |b| && forall j :: 0 <= j < |a| ==> b[j] == a[j] || (a[j] == '.' && b[j] == ',')
  }

  lemma DotsToCommasSlice(a: string, b: string, i: nat, j: nat)
    requires DotsToCommas(a, b) && i <= j <= |a|
    ensures DotsToCommas(a[i..j], b[i..j])
  {
  }

  lemma DotsToCommasTransitive(a: string, b: string, c: string)
    requires DotsToCommas(a, b) && DotsToCommas(b, c)
    ensures DotsToCommas(a, c)
  {
  }

  /**
   * Writing dots as commas inside a token keeps it a token with the same hours,
   * minutes, seconds and milliseconds; once its separator is a comma it is the
   * normalised token.
   */
  lemma TokenDotsToCommas(t: string, u: string)
    requires IsToken(t) && DotsToCommas(t, u)
    ensures IsToken(u) && StampSeconds(u) == StampSeconds(t) && Millis(u) == Millis(t)
    ensures InRange(u) <==> InRange(t)
    ensures u[8] == ',' ==> u == NormalizeToken(t)
    ensures u[8] == t[8] ==> u == t
  {
    forall i | 0 <= i < TokenLength && i != 8
      ensures u[i] == t[i]
    {
      assert t[i] != '.' by {
        if i < 2 { assert IsDigit(t[..2][i]); }
      }
    }
    assert HourField(u) == HourField(t) && MinuteField(u) == MinuteField(t);
    assert SecondField(u) == SecondField(t) && MillisField(u) == MillisField(t);
  }

  /** Writing dots as commas never creates or destroys a match of the pattern. */
  lemma TokenAtDotsToCommas(a: string, b: string, i: nat)
    requires DotsToCommas(a, b)
    ensures TokenAt(a, i) <==> TokenAt(b, i)
  {
    if i + TokenLength <= |a| {
      var t, u := a[i..i + TokenLength], b[i..i + TokenLength];
      DotsToCommasSlice(a, b, i, i + TokenLength);
      if IsToken(t) {
        TokenDotsToCommas(t, u);
      }
      if IsToken(u) {
        TokenBeforeDotsToCommas(t, u);
      }
    }
  }

  /** A text whose dots-as-commas form is a token was a token already. */
  lemma TokenBeforeDotsToCommas(t: string, u: string)
    requires IsToken(u) && DotsToCommas(t, u)
    ensures IsToken(t)
  {
    forall k | 0 <= k < TokenLength && k != 8
      ensures t[k] == u[k]
    {
      assert u[k] != ',' by {
        if k < 2 { assert IsDigit(u[..2][k]); }
      }
    }
    assert HourField(u) == HourField(t);
  }

  /** So `findall` reports the same positions before and after. */
  lemma {:induction false} MatchPositionsDotsToCommas(a: string, b: string, from: nat)
    requires DotsToCommas(a, b)
    decreases |a| - from
    ensures MatchPositions(a, from) == MatchPositions(b, from)
  {
    if from + TokenLength <= |a| {
      TokenAtDotsToCommas(a, b, from);
      if TokenAt(a, from) {
        MatchPositionsDotsToCommas(a, b, from + TokenLength);
      } else {
        MatchPositionsDotsToCommas(a, b, from + 1);
      }
    }
  }

  /** Replacing a pattern by itself with dots written as commas only writes dots as commas. */
  lemma {:induction false} ReplaceDotsToCommas(s: string, pat: string, rep: string)
    requires |pat| > 0 && DotsToCommas(pat, rep)
    decreases |s|
    ensures DotsToCommas(s, Replace(s, pat, rep))
  {
    var n := |pat|;
    if |s| >= n {
      if s[..n] == pat {
        ReplaceDotsToCommas(s[n..], pat, rep);
        assert s == pat + s[n..];
        DotsToCommasConcat(pat, rep, s[n..], Replace(s[n..], pat, rep));
      } else {
        ReplaceDotsToCommas(s[1..], pat, rep);
        assert s == [s[0]] + s[1..];
        DotsToCommasConcat([s[0]], [s[0]], s[1..], Replace(s[1..], pat, rep));
      }
    }
  }

  /** Dots written as commas on each side of a concatenation. */
  lemma DotsToCommasConcat(x: string, rx: string, y: string, ry: string)
    requires DotsToCommas(x, rx) && DotsToCommas(y, ry)
    ensures DotsToCommas(x + y, rx + ry)
  {
    forall j | 0 <= j < |x + y|
      ensures (rx + ry)[j] == (x + y)[j] || ((x + y)[j] == '.' && (rx + ry)[j] == ',')
    {
      if j >= |x| {
        assert (x + y)[j] == y[j - |x|] && (rx + ry)[j] == ry[j - |x|];
      }
    }
  }

  // ---------------------------------------------------------------------------
  // Rewriting each match where it was found
  // ---------------------------------------------------------------------------

  /** The class of a character as far as the pattern is concerned. */
  function Kind(c: char): nat
  {
    if IsDigit(c) then 0 else if c == ':' then 1 else if IsSeparator(c) then 2 else 3
  }

  /** `b` has the length of `a` and a character of the same class at every index. */
  predicate SameShape(a: string, b: string)
  {
    |a| == |b| && forall j :: 0 <= j < |a| ==> Kind(a[j]) == Kind(b[j])
  }

  lemma SameShapeConcat(a: string, b: string, x: string, y: string)
    requires SameShape(a, x) && SameShape(b, y)
    ensures SameShape(a + b, x + y)
  {
    forall j | 0 <= j < |a + b|
      ensures Kind((a + b)[j]) == Kind((x + y)[j])
    {
      if j >= |a| {
        assert (a + b)[j] == b[j - |a|] && (x + y)[j] == y[j - |a|];
      }
    }
  }

  /** Any two tokens have the same shape. */
  lemma TokensSameShape(t: string, u: string)
    requires IsToken(t) && IsToken(u)
    ensures SameShape(t, u)
  {
    forall j | 0 <= j < TokenLength
      ensures Kind(t[j]) == Kind(u[j])
    {
      if j < 2 {
        assert IsDigit(t[..2][j]) && IsDigit(u[..2][j]);
      }
    }
  }

  /** The shape of a text decides whether it is a token. */
  lemma TokenOfSameShape(t: string, u: string)
    requires IsToken(t) && SameShape(t, u)
    ensures IsToken(u)
  {
    forall j | 0 <= j < 2
      ensures IsDigit(u[..2][j])
    {
      assert IsDigit(t[..2][j]);
    }
  }

  /** So `findall` reports the same positions in two texts of the same shape. */
  lemma {:induction false} MatchPositionsSameShape(a: string, b: string, from: nat)
    requires SameShape(a, b)
    decreases |a| - from
    ensures MatchPositions(a, from) == MatchPositions(b, from)
  {
    if from + TokenLength <= |a| {
      var t, u := a[from..from + TokenLength], b[from..from + TokenLength];
      assert SameShape(t, u);
      assert SameShape(u, t);
      if IsToken(t) {
        TokenOfSameShape(t, u);
      }
      if IsToken(u) {
        TokenOfSameShape(u, t);
      }
      if TokenAt(a, from) {
        MatchPositionsSameShape(a, b, from + TokenLength);
      } else {
        MatchPositionsSameShape(a, b, from + 1);
      }
    }
  }

  /** Positions of matches that never overlap, in increasing order, all inside `s`. */
  predicate Separated(s: string, ps: seq<nat>)
  {
    (forall k :: 0 <= k < |ps| ==> ps[k] + TokenLength <= |s|) &&
    forall i, j :: 0 <= i < j < |ps| ==> ps[i] + TokenLength <= ps[j]
  }

  /** The positions `findall` reports are separated. */
  lemma {:induction false} MatchPositionsSeparated(s: string, from: nat)
    decreases |s| - from
    ensures Separated(s, MatchPositions(s, from))
  {
    var ps := MatchPositions(s, from);
    if from + TokenLength <= |s| {
      if TokenAt(s, from) {
        MatchPositionsSeparated(s, from + TokenLength);
        assert ps == [from] + MatchPositions(s, from + TokenLength);
      } else {
        MatchPositionsSeparated(s, from + 1);
      }
    }
  }

  /**
   * `s` with the text at each position `ps[k]` rewritten to `reps[k]`, as `re.sub` with a
   * function rewrites each match where it was found. The last position is rewritten
   * first, so that the earlier ones stay where they were.
   */
  function SpliceAll(s: string, ps: seq<nat>, reps: seq<string>): string
    requires |reps| == |ps| && Separated(s, ps)
    decreases |ps|
  {
    if ps == [] then s
    else
      var n := |ps| - 1;
      assert Separated(s[..ps[n]], ps[..n]);
      SpliceAll(s[..ps[n]], ps[..n], reps[..n]) + reps[n] + s[ps[n] + TokenLength..]
  }

  /** Rewriting matches to tokens, what stays before the last match still holds its matches. */
  lemma SpliceFront(s: string, ps: seq<nat>, reps: seq<string>)
    requires |reps| == |ps| && Separated(s, ps) && ps != []
    requires forall k :: 0 <= k < |ps| ==> TokenAt(s, ps[k]) && IsToken(reps[k])
    ensures var n := |ps| - 1; var front := s[..ps[n]];
      Separated(front, ps[..n]) && |reps[..n]| == n &&
      forall k :: 0 <= k < n ==> TokenAt(front, ps[..n][k]) && IsToken(reps[..n][k])
  {
    var n := |ps| - 1;
    var front := s[..ps[n]];
    forall k | 0 <= k < n
      ensures TokenAt(front, ps[..n][k])
    {
      assert front[ps[k]..ps[k] + TokenLength] == s[ps[k]..ps[k] + TokenLength];
    }
  }

  /** Rewriting matches to tokens keeps the shape of the text. */
  lemma {:induction false} SpliceAllShape(s: string, ps: seq<nat>, reps: seq<string>)
    requires |reps| == |ps| && Separated(s, ps)
    requires forall k :: 0 <= k < |ps| ==> TokenAt(s, ps[k]) && IsToken(reps[k])
    decreases |ps|
    ensures SameShape(s, SpliceAll(s, ps, reps))
  {
    if ps != [] {
      var n := |ps| - 1;
      var p := ps[n];
      var front, tok, back := s[..p], s[p..p + TokenLength], s[p + TokenLength..];
      SpliceFront(s, ps, reps);
      SpliceAllShape(front, ps[..n], reps[..n]);
      var a := SpliceAll(front, ps[..n], reps[..n]);
      TokensSameShape(tok, reps[n]);
      SameShapeConcat(front, tok, a, reps[n]);
      assert SameShape(back, back);
      SameShapeConcat(front + tok, back, a + reps[n], back);
      assert s == front + tok + back;
    }
  }

  /** Rewriting matches to tokens puts `reps[k]` at `ps[k]`. */
  lemma {:induction false} SpliceAllPlaces(s: string, ps: seq<nat>, reps: seq<string>)
    requires |reps| == |ps| && Separated(s, ps)
    requires forall k :: 0 <= k < |ps| ==> TokenAt(s, ps[k]) && IsToken(reps[k])
    decreases |ps|
    ensures var r := SpliceAll(s, ps, reps);
      |r| == |s| && forall k :: 0 <= k < |ps| ==> r[ps[k]..ps[k] + TokenLength] == reps[k]
  {
    SpliceAllShape(s, ps, reps);
    if ps != [] {
      var n := |ps| - 1;
      SpliceFront(s, ps, reps);
      SpliceAllPlaces(s[..ps[n]], ps[..n], reps[..n]);
      PlacesStep(s, ps, reps);
    }
  }

  /** The step of SpliceAllPlaces: from the places in the text before the last match to all of them. */
  lemma PlacesStep(s: string, ps: seq<nat>, reps: seq<string>)
    requires |reps| == |ps| && Separated(s, ps) && ps != [] && IsToken(reps[|ps| - 1])
    requires var n := |ps| - 1;
      Separated(s[..ps[n]], ps[..n]) &&
      (var a := SpliceAll(s[..ps[n]], ps[..n], reps[..n]);
       |a| == ps[n] && forall k :: 0 <= k < |ps[..n]| ==> a[ps[..n][k]..ps[..n][k] + TokenLength] == reps[..n][k])
    ensures var r := SpliceAll(s, ps, reps);
      forall k :: 0 <= k < |ps| ==> r[ps[k]..ps[k] + TokenLength] == reps[k]
  {
    var n := |ps| - 1;
    var p := ps[n];
    var a := SpliceAll(s[..p], ps[..n], reps[..n]);
    PlacesOfPrefix(a, ps, reps, n);
    assert SpliceAll(s, ps, reps) == a + reps[n] + s[p + TokenLength..];
    PlacesAfterLast(a, s[p + TokenLength..], ps, reps);
  }

  /** What holds of the first `n` positions, read through `ps[..n]`, holds of `ps`. */
  lemma PlacesOfPrefix(a: string, ps: seq<nat>, reps: seq<string>, n: nat)
    requires n <= |ps| == |reps|
    requires forall k :: 0 <= k < n ==> ps[k] + TokenLength <= |a|
    requires forall k :: 0 <= k < |ps[..n]| ==> a[ps[..n][k]..ps[..n][k] + TokenLength] == reps[..n][k]
    ensures forall k :: 0 <= k < n ==> a[ps[k]..ps[k] + TokenLength] == reps[k]
  {
    forall k | 0 <= k < n
      ensures a[ps[k]..ps[k] + TokenLength] == reps[k]
    {
      assert ps[..n][k] == ps[k] && reps[..n][k] == reps[k];
    }
  }

  /** The step of SpliceAllPlaces: the last rewrite keeps the earlier ones in place. */
  lemma PlacesAfterLast(a: string, back: string, ps: seq<nat>, reps: seq<string>)
    requires |reps| == |ps| && ps != [] && |a| == ps[|ps| - 1] && |reps[|ps| - 1]| == TokenLength
    requires forall k :: 0 <= k < |ps| - 1 ==> ps[k] + TokenLength <= |a|
    requires forall k :: 0 <= k < |ps| - 1 ==> a[ps[k]..ps[k] + TokenLength] == reps[k]
    ensures var r := a + reps[|ps| - 1] + back;
      forall k :: 0 <= k < |ps| ==> r[ps[k]..ps[k] + TokenLength] == reps[k]
  {
    var n := |ps| - 1;
    forall k | 0 <= k < |ps|
      ensures (a + reps[n] + back)[ps[k]..ps[k] + TokenLength] == reps[k]
    {
      if k < n {
        SliceOfFront(a, reps[n], back, ps[k]);
      } else {
        SliceAfterFront(a, reps[n], back);
      }
    }
  }

  lemma SliceOfFront(a: string, x: string, y: string, i: nat)
    requires i + TokenLength <= |a|
    ensures (a + x + y)[i..i + TokenLength] == a[i..i + TokenLength]
  {
  }

  lemma SliceAfterFront(a: string, x: string, y: string)
    requires |x| == TokenLength
    ensures (a + x + y)[|a|..|a| + TokenLength] == x
  {
    assert a + x + y == a + (x + y);
  }

  /** Reading back a text whose matches were rewritten to tokens finds those tokens. */
  lemma SpliceAllFound(s: string, reps: seq<string>)
    requires |reps| == |MatchPositions(s, 0)|
    requires forall k :: 0 <= k < |reps| ==> IsToken(reps[k])
    ensures Separated(s, MatchPositions(s, 0))
    ensures FindAll(SpliceAll(s, MatchPositions(s, 0), reps)) == reps
  {
    var ps := MatchPositions(s, 0);
    MatchPositionsSeparated(s, 0);
    SpliceAllShape(s, ps, reps);
    SpliceAllPlaces(s, ps, reps);
    var r := SpliceAll(s, ps, reps);
    MatchPositionsSameShape(s, r, 0);
    var ms := FindAll(r);
    forall k | 0 <= k < |reps|
      ensures ms[k] == reps[k]
    {
      assert MatchPositions(r, 0)[k] == ps[k];
    }
  }
}
