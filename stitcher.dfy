/**
 * `adjust_transcript_timestamps`: one forward pass over the merged transcript's
 * lines that detects chunk boundaries from decreasing timestamps, accumulates an
 * offset and rewrites every timestamp token onto the original timeline.
 *
 * The pass is specified by functions over an explicit `StitchState` (the source's
 * local counters `offset_seconds` and `last_timestamp`); the method that mirrors the
 * source's nested loops is proved equal to them.
 */
module Stitcher {
  import opened Timestamp
  import opened Scan

  /** The two counters of one run: `offset_seconds` and `last_timestamp`. */
  datatype StitchState = StitchState(offset: nat, last: nat)

  /** Both counters start at zero. */
  const Initial := StitchState(0, 0)

  /**
   * One token's effect on the counters: a chunk-local value below the previous one is
   * read as the start of a new chunk, and the previous value is added to the offset.
   */
  function Advance(st: StitchState, current: nat): StitchState
  {
    StitchState(if current < st.last then st.offset + st.last else st.offset, current)
  }

  predicate AllTokens(toks: seq<string>)
  {
    forall k :: 0 <= k < |toks| ==> IsToken(toks[k])
  }

  /** One iteration of the inner loop: update the counters, then rewrite the match in the line. */
  function StepToken(st: StitchState, line: string, tok: string): (StitchState, string)
    requires IsToken(tok)
  {
    var next := Advance(st, StampSeconds(tok));
    (next, Replace(line, tok, ShiftTimestamp(tok, next.offset)))
  }

  /** The inner loop over a line's matches, each rewriting the line as left by the previous one. */
  function StepTokens(st: StitchState, line: string, toks: seq<string>): (StitchState, string)
    requires AllTokens(toks)
  {
    if toks == [] then (st, line)
    else
      var prev := StepTokens(st, line, toks[..|toks| - 1]);
      StepToken(prev.0, prev.1, toks[|toks| - 1])
  }

  /** The counters after a line and the line as appended to `adjusted_lines`. */
  function StepLine(st: StitchState, line: string): (StitchState, string)
  {
    StepTokens(st, line, FindAll(line))
  }

  /**
   * The outer loop: the counters after `lines` and the adjusted lines. There is one
   * output line per input line, in order, and a line without a match is copied as is.
   */
  function StitchFrom(st: StitchState, lines: seq<string>): (r: (StitchState, seq<string>))
    ensures KeepsUnmatched(lines, r.1)
  {
    if lines == [] then (st, [])
    else
      var front, line := lines[..|lines| - 1], lines[|lines| - 1];
      var prev := StitchFrom(st, front);
      var next := StepLine(prev.0, line);
      KeepsUnmatchedAppend(front, prev.1, line, next.1);
      LastSplit(lines);
      (next.0, prev.1 + [next.1])
  }

  /** One output line per input line, and a line without a match copied as is. */
  predicate KeepsUnmatched(lines: seq<string>, out: seq<string>)
  {
    |out| == |lines| && forall i :: 0 <= i < |lines| && FindAll(lines[i]) == [] ==> out[i] == lines[i]
  }

  lemma KeepsUnmatchedAppend(a: seq<string>, b: seq<string>, x: string, y: string)
    requires KeepsUnmatched(a, b) && (FindAll(x) == [] ==> y == x)
    ensures KeepsUnmatched(a + [x], b + [y])
  {
    forall i | 0 <= i < |a| + 1 && FindAll((a + [x])[i]) == []
      ensures (b + [y])[i] == (a + [x])[i]
    {
      if i < |a| {
        assert (a + [x])[i] == a[i] && (b + [y])[i] == b[i];
      }
    }
  }

  /** The adjusted lines of a whole run. */
  function Stitch(lines: seq<string>): seq<string>
  {
    StitchFrom(Initial, lines).1
  }

  /**
   * `adjust_transcript_timestamps` on the file's lines: the outer loop with the two
   * counters, appending each adjusted line.
   */
  method AdjustTranscriptTimestamps(lines: seq<string>) returns (adjusted: seq<string>)
    ensures adjusted == Stitch(lines)
    ensures KeepsUnmatched(lines, adjusted)
  {
    adjusted := [];
    var offset: nat, last: nat := 0, 0;
    for i := 0 to |lines|
      invariant (StitchState(offset, last), adjusted) == StitchFrom(Initial, lines[..i])
    {
      var line;
      offset, last, line := AdjustLine(offset, last, lines[i]);
      adjusted := adjusted + [line];
      assert lines[..i + 1][..i] == lines[..i];
    }
    assert lines[..|lines|] == lines;
  }

  /**
   * The inner loop of `adjust_transcript_timestamps` over one line's matches: update
   * the counters, shift the match and rebind the line to the result of `replace`.
   */
  method AdjustLine(offset0: nat, last0: nat, line0: string) returns (offset: nat, last: nat, line: string)
    ensures (StitchState(offset, last), line) == StepLine(StitchState(offset0, last0), line0)
  {
    offset, last, line := offset0, last0, line0;
    var matches := FindAll(line0);
    for k := 0 to |matches|
      invariant (StitchState(offset, last), line) == StepTokens(StitchState(offset0, last0), line0, matches[..k])
    {
      ghost var before := StitchState(offset, last);
      var found := matches[k];
      var current := StampSeconds(found);
      if current < last {
        offset := offset + last;
      }
      var adjustedTime := ShiftTimestamp(found, offset);
      line := Replace(line, found, adjustedTime);
      last := current;
      assert StitchState(offset, last) == Advance(before, StampSeconds(found));
      StepTokensSnoc(StitchState(offset0, last0), line0, matches, k);
    }
    assert matches[..|matches|] == matches;
  }

  /** Unfolding the inner loop by one match. */
  lemma StepTokensSnoc(st: StitchState, line: string, toks: seq<string>, k: nat)
    requires AllTokens(toks) && k < |toks|
    ensures AllTokens(toks[..k]) && AllTokens(toks[..k + 1])
    ensures var prev := StepTokens(st, line, toks[..k]);
      StepTokens(st, line, toks[..k + 1]) == StepToken(prev.0, prev.1, toks[k])
  {
    assert toks[..k + 1][..k] == toks[..k];
  }

  // ---------------------------------------------------------------------------
  // The counters, token by token
  // ---------------------------------------------------------------------------

  /** Chunk-local (pre-shift) second values of tokens. */
  function TokenValues(toks: seq<string>): (vals: seq<nat>)
    requires AllTokens(toks)
    ensures |vals| == |toks|
    ensures forall k :: 0 <= k < |toks| ==> vals[k] == StampSeconds(toks[k])
  {
    seq(|toks|, k requires 0 <= k < |toks| => StampSeconds(toks[k]))
  }

  /** Every match of every line, in the order the stitcher visits them. */
  function TokenTrace(lines: seq<string>): (toks: seq<string>)
    ensures AllTokens(toks)
  {
    if lines == [] then [] else TokenTrace(lines[..|lines| - 1]) + FindAll(lines[|lines| - 1])
  }

  /** The counters after a sequence of chunk-local values. */
  function Run(st: StitchState, vals: seq<nat>): StitchState
  {
    if vals == [] then st else Advance(Run(st, vals[..|vals| - 1]), vals[|vals| - 1])
  }

  lemma {:induction false} RunAppend(st: StitchState, a: seq<nat>, b: seq<nat>)
    ensures Run(st, a + b) == Run(Run(st, a), b)
  {
    if b != [] {
      assert (a + b)[..|a + b| - 1] == a + b[..|b| - 1];
      RunAppend(st, a, b[..|b| - 1]);
    } else {
      assert a + b == a;
    }
  }

  lemma TokenValuesAppend(a: seq<string>, b: seq<string>)
    requires AllTokens(a) && AllTokens(b)
    ensures AllTokens(a + b) && TokenValues(a + b) == TokenValues(a) + TokenValues(b)
  {
  }

  /** The inner loop's counters depend only on the values of the matches, not on the line. */
  lemma {:induction false} StepTokensFollowRun(st: StitchState, line: string, toks: seq<string>)
    requires AllTokens(toks)
    ensures StepTokens(st, line, toks).0 == Run(st, TokenValues(toks))
  {
    if toks != [] {
      var front := toks[..|toks| - 1];
      StepTokensFollowRun(st, line, front);
      assert TokenValues(toks)[..|toks| - 1] == TokenValues(front);
    }
  }

  /**
   * The counters of the nested loops are those of one flat run over every match of
   * every line: the line structure plays no part in boundary detection.
   */
  lemma {:induction false} StitchFollowsRun(st: StitchState, lines: seq<string>)
    ensures StitchFrom(st, lines).0 == Run(st, TokenValues(TokenTrace(lines)))
  {
    if lines != [] {
      var front := lines[..|lines| - 1];
      var last := lines[|lines| - 1];
      StitchFollowsRun(st, front);
      StepTokensFollowRun(StitchFrom(st, front).0, last, FindAll(last));
      TokenValuesAppend(TokenTrace(front), FindAll(last));
      RunAppend(st, TokenValues(TokenTrace(front)), TokenValues(FindAll(last)));
    }
  }

  /**
   * Per token, the state rule: `last` becomes the token's pre-shift value, the offset
   * never decreases, and it grows exactly when the value drops below the previous
   * one, by exactly that previous value.
   */
  lemma StateRule(st: StitchState, vals: seq<nat>, k: nat)
    requires k < |vals|
    ensures var before, after := Run(st, vals[..k]), Run(st, vals[..k + 1]);
      after.last == vals[k] && after.offset >= before.offset &&
      (after.offset != before.offset <==> vals[k] < before.last) &&
      (vals[k] < before.last ==> after.offset == before.offset + before.last)
  {
    assert vals[..k + 1][..k] == vals[..k];
  }

  /** Over a whole run the offset never decreases. */
  lemma {:induction false} OffsetMonotone(st: StitchState, vals: seq<nat>, i: nat, j: nat)
    requires i <= j <= |vals|
    decreases j
    ensures Run(st, vals[..i]).offset <= Run(st, vals[..j]).offset
  {
    if i < j {
      OffsetMonotone(st, vals, i, j - 1);
      StateRule(st, vals, j - 1);
    }
  }

  /** The offset in force when the k-th value is shifted. */
  function OffsetAt(vals: seq<nat>, k: nat): nat
    requires k < |vals|
  {
    Run(Initial, vals[..k + 1]).offset
  }

  /**
   * After shifting, the values on the original timeline never decrease: a reset adds
   * at least as much as the value dropped.
   */
  lemma {:induction false} ShiftedValuesNonDecreasing(vals: seq<nat>, i: nat, j: nat)
    requires i <= j < |vals|
    decreases j
    ensures OffsetAt(vals, i) + vals[i] <= OffsetAt(vals, j) + vals[j]
  {
    if i < j {
      ShiftedValuesNonDecreasing(vals, i, j - 1);
      StateRule(Initial, vals, j);
      StateRule(Initial, vals, j - 1);
    }
  }

  /**
   * So the adjusted stamps the pass computes, one per match in match order, read back
   * as seconds, never decrease. This is about the values computed, not the text left in
   * a line: `replace` can rewrite an earlier stamp of the same line again (see
   * `ReplaceRewritesEarlierStamp`).
   */
  lemma RenderedTimesNonDecreasing(toks: seq<string>, i: nat, j: nat)
    requires AllTokens(toks) && i <= j < |toks|
    ensures var vals := TokenValues(toks);
      var ri, rj := ShiftTimestamp(toks[i], OffsetAt(vals, i)), ShiftTimestamp(toks[j], OffsetAt(vals, j));
      IsStamp(ri) && IsStamp(rj) && StampSeconds(ri) <= StampSeconds(rj)
  {
    var vals := TokenValues(toks);
    ShiftedValuesNonDecreasing(vals, i, j);
    ShiftCarry(toks[i], OffsetAt(vals, i));
    ShiftCarry(toks[j], OffsetAt(vals, j));
  }

  /** Each match of a line is replaced by its shift under the offset of the run so far. */
  lemma LineRewrite(st: StitchState, line: string, toks: seq<string>, k: nat)
    requires AllTokens(toks) && k < |toks|
    ensures AllTokens(toks[..k]) && AllTokens(toks[..k + 1])
    ensures StepTokens(st, line, toks[..k + 1]) ==
      (Run(st, TokenValues(toks)[..k + 1]),
       Replace(StepTokens(st, line, toks[..k]).1, toks[k],
               ShiftTimestamp(toks[k], Run(st, TokenValues(toks)[..k + 1]).offset)))
  {
    StepTokensSnoc(st, line, toks, k);
    StepTokensFollowRun(st, line, toks[..k + 1]);
    assert TokenValues(toks[..k + 1]) == TokenValues(toks)[..k + 1];
  }

  // ---------------------------------------------------------------------------
  // Chunks
  // ---------------------------------------------------------------------------

  function Last(vals: seq<nat>): nat
    requires vals != []
  {
    vals[|vals| - 1]
  }

  predicate NonDecreasing(vals: seq<nat>)
  {
    forall i, j :: 0 <= i <= j < |vals| ==> vals[i] <= vals[j]
  }

  /** Values that never decrease and start no lower than `floor`. */
  predicate MonotoneFrom(floor: nat, vals: seq<nat>)
  {
    NonDecreasing(vals) && forall k :: 0 <= k < |vals| ==> floor <= vals[k]
  }

  /**
   * The chunk-local values of consecutive chunks as the reset heuristic expects them:
   * no chunk is empty, values never decrease within a chunk, and every chunk starts
   * below the value its predecessor ended on.
   */
  predicate Chunked(chunks: seq<seq<nat>>)
  {
    (forall c :: 0 <= c < |chunks| ==> chunks[c] != [] && NonDecreasing(chunks[c])) &&
    (forall c :: 0 < c < |chunks| ==> chunks[c][0] < Last(chunks[c - 1]))
  }

  function Flatten(chunks: seq<seq<nat>>): seq<nat>
  {
    if chunks == [] then [] else Flatten(chunks[..|chunks| - 1]) + chunks[|chunks| - 1]
  }

  /** The total of the values on which the given chunks end. */
  function SumOfLasts(chunks: seq<seq<nat>>): nat
    requires forall c :: 0 <= c < |chunks| ==> chunks[c] != []
  {
    if chunks == [] then 0 else SumOfLasts(chunks[..|chunks| - 1]) + Last(chunks[|chunks| - 1])
  }

  /** Values that never drop below the last one seen leave the offset alone. */
  lemma {:induction false} RunWithoutReset(st: StitchState, vals: seq<nat>, j: nat)
    requires MonotoneFrom(st.last, vals) && j <= |vals|
    ensures Run(st, vals[..j]) == StitchState(st.offset, if j == 0 then st.last else vals[j - 1])
  {
    if j > 0 {
      RunWithoutReset(st, vals, j - 1);
      assert vals[..j][..j - 1] == vals[..j - 1];
    }
  }

  /**
   * Within one chunk the offset changes at most once, at its first value, and only if
   * that value is below the last one seen.
   */
  lemma RunChunk(st: StitchState, chunk: seq<nat>, j: nat)
    requires chunk != [] && NonDecreasing(chunk) && j < |chunk|
    ensures Run(st, chunk[..j + 1]) ==
      StitchState(if chunk[0] < st.last then st.offset + st.last else st.offset, chunk[j])
  {
    var first := Advance(st, chunk[0]);
    var rest := chunk[1..];
    assert chunk[..j + 1] == [chunk[0]] + rest[..j];
    RunAppend(st, [chunk[0]], rest[..j]);
    assert Run(st, [chunk[0]]) == first by {
      assert [chunk[0]][..0] == [];
    }
    RunWithoutReset(first, rest, j);
    if j > 0 {
      assert rest[j - 1] == chunk[j];
    }
  }

  /**
   * The offset applied to the j-th value of chunk c is the sum of the values on which
   * the earlier chunks ended, and `last` is that value itself: every token lands on the
   * original timeline when chunk c really starts where the earlier chunks' last values
   * add up to.
   */
  lemma {:induction false} ChunkOffsets(chunks: seq<seq<nat>>, c: nat, j: nat)
    requires Chunked(chunks) && c < |chunks| && j < |chunks[c]|
    decreases c
    ensures Run(Initial, Flatten(chunks[..c]) + chunks[c][..j + 1]) ==
      StitchState(SumOfLasts(chunks[..c]), chunks[c][j])
  {
    var before := Flatten(chunks[..c]);
    RunAppend(Initial, before, chunks[c][..j + 1]);
    if c == 0 {
      assert chunks[..0] == [];
      RunChunk(Initial, chunks[0], j);
    } else {
      var prev := chunks[c - 1];
      ChunkOffsets(chunks, c - 1, |prev| - 1);
      assert prev[..|prev|] == prev;
      assert chunks[..c][..c - 1] == chunks[..c - 1];
      assert before == Flatten(chunks[..c - 1]) + prev;
      assert SumOfLasts(chunks[..c]) == SumOfLasts(chunks[..c - 1]) + Last(prev);
      RunChunk(Run(Initial, before), chunks[c], j);
    }
  }

  // ---------------------------------------------------------------------------
  // A single chunk: separator normalisation only, and idempotence
  // ---------------------------------------------------------------------------

  /** No two places where the pattern matches overlap. */
  predicate NoOverlappingTokens(s: string)
  {
    forall i: nat, j: nat :: i < |s| && i < j < i + TokenLength && TokenAt(s, i) ==> !TokenAt(s, j)
  }

  predicate AllInRange(toks: seq<string>)
    requires AllTokens(toks)
  {
    forall k :: 0 <= k < |toks| ==> InRange(toks[k])
  }

  predicate AllCommas(toks: seq<string>)
    requires AllTokens(toks)
  {
    forall k :: 0 <= k < |toks| ==> toks[k][8] == ','
  }

  function Normalized(toks: seq<string>): (r: seq<string>)
    requires AllTokens(toks)
    ensures |r| == |toks| && AllTokens(r) && AllCommas(r)
    ensures forall k :: 0 <= k < |toks| ==> r[k] == NormalizeToken(toks[k])
  {
    seq(|toks|, k requires 0 <= k < |toks| => NormalizeToken(toks[k]))
  }

  /** The first k matches of `line` hold commas in `s`. */
  predicate CommasAt(s: string, ps: seq<nat>, k: nat)
  {
    forall i :: 0 <= i < k && i < |ps| ==> ps[i] + 8 < |s| && s[ps[i] + 8] == ','
  }

  lemma CommasAtKept(a: string, b: string, ps: seq<nat>, k: nat)
    requires CommasAt(a, ps, k) && DotsToCommas(a, b)
    ensures CommasAt(b, ps, k)
  {
    forall i | 0 <= i < k && i < |ps|
      ensures ps[i] + 8 < |b| && b[ps[i] + 8] == ','
    {
      assert a[ps[i] + 8] == ',';
    }
  }

  lemma CommasAtExtended(s: string, ps: seq<nat>, k: nat)
    requires CommasAt(s, ps, k) && k < |ps| && ps[k] + 8 < |s| && s[ps[k] + 8] == ','
    ensures CommasAt(s, ps, k + 1)
  {
  }

  lemma NormalizeDotsToCommas(t: string)
    requires IsToken(t)
    ensures DotsToCommas(t, NormalizeToken(t))
  {
  }

  /** With offset 0 and values that never drop, each match is replaced by its normalised text. */
  lemma MonotoneStep(st: StitchState, line: string, toks: seq<string>, k: nat)
    requires AllTokens(toks) && k < |toks| && InRange(toks[k])
    requires st.offset == 0 && MonotoneFrom(st.last, TokenValues(toks))
    ensures AllTokens(toks[..k]) && AllTokens(toks[..k + 1])
    ensures StepTokens(st, line, toks[..k + 1]).1 ==
      Replace(StepTokens(st, line, toks[..k]).1, toks[k], NormalizeToken(toks[k]))
  {
    LineRewrite(st, line, toks, k);
    RunWithoutReset(st, TokenValues(toks), k + 1);
    ShiftByZero(toks[k]);
  }

  /**
   * Replacing the match at `p` of `line`, in a copy of `line` with some dots written as
   * commas, by its normalised text only writes dots as commas and leaves a comma at
   * the match's separator: no earlier occurrence overlaps it.
   */
  lemma ReplaceNormalizesMatch(line: string, prev: string, p: nat)
    requires NoOverlappingTokens(line) && TokenAt(line, p) && DotsToCommas(line, prev)
    ensures var t := line[p..p + TokenLength];
      var out := Replace(prev, t, NormalizeToken(t));
      DotsToCommas(prev, out) && out[p + 8] == ','
  {
    var t := line[p..p + TokenLength];
    var out := Replace(prev, t, NormalizeToken(t));
    NormalizeDotsToCommas(t);
    ReplaceDotsToCommas(prev, t, NormalizeToken(t));
    if prev[p + 8] != ',' {
      var u := prev[p..p + TokenLength];
      DotsToCommasSlice(line, prev, p, p + TokenLength);
      assert u[8] == prev[p + 8] && t[8] == line[p + 8];
      TokenDotsToCommas(t, u);
      forall i: nat | p < i + TokenLength && i < p
        ensures !Occurs(prev, t, i)
      {
        TokenAtDotsToCommas(line, prev, i);
        assert !TokenAt(line, i);
      }
      ReplaceHits(prev, t, NormalizeToken(t), p);
      assert out[p + 8] == out[p..p + TokenLength][8];
    }
  }

  /** The text side of one step of NormalizeTokens. */
  lemma NormalizeStep(line: string, prev: string, ps: seq<nat>, k: nat)
    requires NoOverlappingTokens(line) && DotsToCommas(line, prev) && CommasAt(prev, ps, k)
    requires ps == MatchPositions(line, 0) && k < |ps|
    ensures var t := FindAll(line)[k];
      var out := Replace(prev, t, NormalizeToken(t));
      DotsToCommas(line, out) && CommasAt(out, ps, k + 1)
  {
    var p := ps[k];
    var t := line[p..p + TokenLength];
    assert FindAll(line)[k] == t;
    var out := Replace(prev, t, NormalizeToken(t));
    ReplaceNormalizesMatch(line, prev, p);
    DotsToCommasTransitive(line, prev, out);
    CommasAtKept(prev, out, ps, k);
    CommasAtExtended(out, ps, k);
  }

  /**
   * With offset 0 and values that never drop, the inner loop only writes the
   * separators of the matches as commas: each `replace` hits its own match.
   */
  lemma {:induction false} NormalizeTokens(st: StitchState, line: string, k: nat)
    requires st.offset == 0 && NoOverlappingTokens(line)
    requires k <= |FindAll(line)|
    requires AllInRange(FindAll(line)) && MonotoneFrom(st.last, TokenValues(FindAll(line)))
    ensures AllTokens(FindAll(line)[..k])
    ensures var r := StepTokens(st, line, FindAll(line)[..k]);
      DotsToCommas(line, r.1) && CommasAt(r.1, MatchPositions(line, 0), k)
  {
    var toks := FindAll(line);
    var ps := MatchPositions(line, 0);
    if k == 0 {
      assert toks[..0] == [];
    } else {
      NormalizeTokens(st, line, k - 1);
      MonotoneStep(st, line, toks, k - 1);
      NormalizeStep(line, StepTokens(st, line, toks[..k - 1]).1, ps, k - 1);
    }
  }

  /**
   * One line with offset 0 and values that never drop: the output differs from the
   * line only by dots written as commas, and its matches are the line's matches with
   * a comma separator.
   */
  lemma LineNormalized(st: StitchState, line: string)
    requires st.offset == 0 && NoOverlappingTokens(line)
    requires AllInRange(FindAll(line)) && MonotoneFrom(st.last, TokenValues(FindAll(line)))
    ensures var out := StepLine(st, line).1;
      DotsToCommas(line, out) && FindAll(out) == Normalized(FindAll(line))
  {
    var toks := FindAll(line);
    NormalizeTokens(st, line, |toks|);
    assert toks[..|toks|] == toks;
    CommaMatchesNormalized(line, StepLine(st, line).1);
  }

  /**
   * When a copy of `line` with some dots written as commas has commas at every match,
   * its matches are the line's matches normalised.
   */
  lemma CommaMatchesNormalized(line: string, out: string)
    requires DotsToCommas(line, out) && CommasAt(out, MatchPositions(line, 0), |MatchPositions(line, 0)|)
    ensures FindAll(out) == Normalized(FindAll(line))
  {
    var toks, found := FindAll(line), FindAll(out);
    var ps := MatchPositions(line, 0);
    MatchPositionsDotsToCommas(line, out, 0);
    assert |found| == |toks|;
    forall k | 0 <= k < |toks|
      ensures found[k] == NormalizeToken(toks[k])
    {
      var p := ps[k];
      assert toks[k] == line[p..p + TokenLength];
      assert found[k] == out[p..p + TokenLength];
      DotsToCommasSlice(line, out, p, p + TokenLength);
      TokenDotsToCommas(toks[k], out[p..p + TokenLength]);
    }
  }

  /** With offset 0, values that never drop and comma separators, the inner loop changes nothing. */
  lemma {:induction false} CommaTokensKept(st: StitchState, line: string, k: nat)
    requires st.offset == 0 && k <= |FindAll(line)|
    requires AllInRange(FindAll(line)) && AllCommas(FindAll(line))
    requires MonotoneFrom(st.last, TokenValues(FindAll(line)))
    ensures AllTokens(FindAll(line)[..k])
    ensures StepTokens(st, line, FindAll(line)[..k]).1 == line
  {
    var toks := FindAll(line);
    if k == 0 {
      assert toks[..0] == [];
    } else {
      CommaTokensKept(st, line, k - 1);
      var t := toks[k - 1];
      MonotoneStep(st, line, toks, k - 1);
      assert NormalizeToken(t) == t;
    }
  }

  /**
   * The single-chunk hypotheses: no line holds overlapping token shapes, every token's
   * minutes and seconds are below 60, and the token values never decrease.
   */
  predicate SingleChunk(lines: seq<string>)
  {
    (forall i :: 0 <= i < |lines| ==> NoOverlappingTokens(lines[i])) &&
    AllInRange(TokenTrace(lines)) && NonDecreasing(TokenValues(TokenTrace(lines)))
  }

  /** The counters of a run whose values never drop: offset 0, `last` the latest value. */
  lemma StateOfMonotoneRun(lines: seq<string>)
    requires NonDecreasing(TokenValues(TokenTrace(lines)))
    ensures var vals := TokenValues(TokenTrace(lines));
      StitchFrom(Initial, lines).0 == StitchState(0, if vals == [] then 0 else Last(vals))
  {
    var vals := TokenValues(TokenTrace(lines));
    StitchFollowsRun(Initial, lines);
    RunWithoutReset(Initial, vals, |vals|);
    assert vals[..|vals|] == vals;
  }

  /** A prefix of a never-decreasing sequence never decreases, and the rest starts at or above its end. */
  lemma NonDecreasingSplit(a: seq<nat>, b: seq<nat>)
    requires NonDecreasing(a + b)
    ensures NonDecreasing(a) && MonotoneFrom(if a == [] then 0 else Last(a), b)
  {
    forall i, j | 0 <= i <= j < |a|
      ensures a[i] <= a[j]
    {
      assert a[i] == (a + b)[i] && a[j] == (a + b)[j];
    }
    forall i, j | 0 <= i <= j < |b|
      ensures b[i] <= b[j]
    {
      assert b[i] == (a + b)[|a| + i] && b[j] == (a + b)[|a| + j];
    }
    if a != [] {
      forall k | 0 <= k < |b|
        ensures Last(a) <= b[k]
      {
        assert Last(a) == (a + b)[|a| - 1] && b[k] == (a + b)[|a| + k];
      }
    }
  }

  /** Splitting the trace at the last line. */
  lemma TraceSplit(lines: seq<string>)
    requires lines != []
    ensures var front, line := lines[..|lines| - 1], lines[|lines| - 1];
      TokenTrace(lines) == TokenTrace(front) + FindAll(line) &&
      TokenValues(TokenTrace(lines)) == TokenValues(TokenTrace(front)) + TokenValues(FindAll(line))
  {
    TokenValuesAppend(TokenTrace(lines[..|lines| - 1]), FindAll(lines[|lines| - 1]));
  }

  /** The range hypothesis of a trace holds for both parts of a split. */
  lemma AllInRangeSplit(a: seq<string>, b: seq<string>)
    requires AllTokens(a) && AllTokens(b) && AllTokens(a + b) && AllInRange(a + b)
    ensures AllInRange(a) && AllInRange(b)
  {
    assert forall k :: 0 <= k < |a| ==> a[k] == (a + b)[k];
    assert forall k :: 0 <= k < |b| ==> b[k] == (a + b)[|a| + k];
  }

  /** Likewise the comma hypothesis. */
  lemma AllCommasSplit(a: seq<string>, b: seq<string>)
    requires AllTokens(a) && AllTokens(b) && AllTokens(a + b) && AllCommas(a + b)
    ensures AllCommas(a) && AllCommas(b)
  {
    assert forall k :: 0 <= k < |a| ==> a[k] == (a + b)[k];
    assert forall k :: 0 <= k < |b| ==> b[k] == (a + b)[|a| + k];
  }

  /**
   * A single-chunk run keeps offset 0 and only normalises separators: each output line
   * is its input line with some dots written as commas, and the matches of the output
   * are the input's matches with a comma separator.
   */
  lemma {:induction false} StitchSingleChunk(lines: seq<string>)
    requires SingleChunk(lines)
    ensures var r := StitchFrom(Initial, lines);
      r.0.offset == 0 && LinewiseDotsToCommas(lines, r.1) &&
      TokenTrace(r.1) == Normalized(TokenTrace(lines))
  {
    StateOfMonotoneRun(lines);
    if lines != [] {
      var front, line := lines[..|lines| - 1], lines[|lines| - 1];
      SingleChunkSplit(lines);
      StitchSingleChunk(front);
      var prev := StitchFrom(Initial, front);
      var out := StepLine(prev.0, line).1;
      LineNormalized(prev.0, line);
      StitchLastLine(lines, prev.1, out);
      NormalizedAppend(TokenTrace(front), FindAll(line));
      LinewiseAppend(front, prev.1, line, out);
      LastSplit(lines);
    }
  }

  /** Line by line, `b` is `a` with some dots written as commas. */
  predicate LinewiseDotsToCommas(a: seq<string>, b: seq<string>)
  {
    |a| == |b| && forall i :: 0 <= i < |a| ==> DotsToCommas(a[i], b[i])
  }

  lemma LinewiseAppend(a: seq<string>, b: seq<string>, x: string, y: string)
    requires LinewiseDotsToCommas(a, b) && DotsToCommas(x, y)
    ensures LinewiseDotsToCommas(a + [x], b + [y])
  {
    forall i | 0 <= i < |a| + 1
      ensures DotsToCommas((a + [x])[i], (b + [y])[i])
    {
      if i < |a| {
        assert (a + [x])[i] == a[i] && (b + [y])[i] == b[i];
      }
    }
  }

  /** The single-chunk hypotheses of a run, split at its last line. */
  lemma SingleChunkSplit(lines: seq<string>)
    requires SingleChunk(lines) && lines != []
    ensures var front, line := lines[..|lines| - 1], lines[|lines| - 1];
      var st := StitchFrom(Initial, front).0;
      SingleChunk(front) && NoOverlappingTokens(line) && AllInRange(FindAll(line)) &&
      st.offset == 0 && MonotoneFrom(st.last, TokenValues(FindAll(line))) &&
      TokenTrace(lines) == TokenTrace(front) + FindAll(line)
  {
    var front, line := lines[..|lines| - 1], lines[|lines| - 1];
    TraceSplit(lines);
    NonDecreasingSplit(TokenValues(TokenTrace(front)), TokenValues(FindAll(line)));
    AllInRangeSplit(TokenTrace(front), FindAll(line));
    StateOfMonotoneRun(front);
    assert forall i :: 0 <= i < |front| ==> front[i] == lines[i];
  }

  lemma NormalizedAppend(a: seq<string>, b: seq<string>)
    requires AllTokens(a) && AllTokens(b)
    ensures AllTokens(a + b) && Normalized(a + b) == Normalized(a) + Normalized(b)
  {
  }

  lemma LastSplit<T>(s: seq<T>)
    requires s != []
    ensures s == s[..|s| - 1] + [s[|s| - 1]]
  {
  }

  /** How the output of the last line extends the output trace. */
  lemma StitchLastLine(lines: seq<string>, prevOut: seq<string>, out: string)
    requires lines != [] && prevOut == Stitch(lines[..|lines| - 1])
    requires out == StepLine(StitchFrom(Initial, lines[..|lines| - 1]).0, lines[|lines| - 1]).1
    ensures Stitch(lines) == prevOut + [out]
    ensures TokenTrace(Stitch(lines)) == TokenTrace(prevOut) + FindAll(out)
  {
    var r := Stitch(lines);
    assert r[..|r| - 1] == prevOut;
  }

  /** A run over lines whose tokens already use commas, in range and never dropping, changes nothing. */
  lemma {:induction false} StitchKeepsCommaLines(lines: seq<string>)
    requires AllInRange(TokenTrace(lines)) && AllCommas(TokenTrace(lines))
    requires NonDecreasing(TokenValues(TokenTrace(lines)))
    ensures Stitch(lines) == lines
  {
    if lines != [] {
      var front, line := lines[..|lines| - 1], lines[|lines| - 1];
      TraceSplit(lines);
      NonDecreasingSplit(TokenValues(TokenTrace(front)), TokenValues(FindAll(line)));
      AllInRangeSplit(TokenTrace(front), FindAll(line));
      AllCommasSplit(TokenTrace(front), FindAll(line));
      StitchKeepsCommaLines(front);
      StateOfMonotoneRun(front);
      var st := StitchFrom(Initial, front).0;
      CommaTokensKept(st, line, |FindAll(line)|);
      assert FindAll(line)[..|FindAll(line)|] == FindAll(line);
      assert StepLine(st, line).1 == line;
      StitchLastLine(lines, front, line);
      LastSplit(lines);
    }
  }

  /**
   * Idempotence in the single-chunk case: stitching the stitched lines again leaves
   * them unchanged.
   */
  lemma StitchIdempotent(lines: seq<string>)
    requires SingleChunk(lines)
    ensures Stitch(Stitch(lines)) == Stitch(lines)
  {
    StitchSingleChunk(lines);
    var out := Stitch(lines);
    var toks := TokenTrace(lines);
    assert TokenValues(TokenTrace(out)) == TokenValues(toks) by {
      forall k | 0 <= k < |toks|
        ensures StampSeconds(TokenTrace(out)[k]) == StampSeconds(toks[k])
      {
        NormalizeDotsToCommas(toks[k]);
        TokenDotsToCommas(toks[k], NormalizeToken(toks[k]));
      }
    }
    assert AllInRange(TokenTrace(out)) by {
      forall k | 0 <= k < |toks|
        ensures InRange(TokenTrace(out)[k])
      {
        NormalizeDotsToCommas(toks[k]);
        TokenDotsToCommas(toks[k], NormalizeToken(toks[k]));
      }
    }
    StitchKeepsCommaLines(out);
  }

  /**
   * A reset adds the last value seen, not the chunk length: a chunk ending at
   * 00:29:58 followed by one starting at 00:00:02 puts the second token at 00:30:00.
   */
  lemma ResetAddsLastValueSeen(t1: string, t2: string)
    requires t1 == "00:29:58.000" && t2 == "00:00:02.000"
    ensures IsToken(t1) && IsToken(t2)
    ensures var vals := TokenValues([t1, t2]);
      OffsetAt(vals, 0) == 0 && OffsetAt(vals, 1) == 1798 &&
      ShiftTimestamp(t2, OffsetAt(vals, 1)) == "00:30:00,000"
  {
    assert IsToken(t1) && IsToken(t2) by {
      assert t1[..2] == "00" && t2[..2] == "00";
    }
    TokenFieldValues(t1);
    TokenFieldValues(t2);
    var vals := TokenValues([t1, t2]);
    assert vals == [1798, 2];
    assert vals[..1] == [1798] && vals[..2] == vals;
    assert Run(Initial, [1798]) == StitchState(0, 1798) by {
      assert [1798][..0] == [];
    }
    ShiftOfToken(t2, 1798, 1800, 0);
    RenderShort(1800, 0, 0, 30, 0);
  }

  // ---------------------------------------------------------------------------
  // Replacing by text within one line
  // ---------------------------------------------------------------------------

  /** A line holding four stamps separated by single spaces. */
  function FourStamps(a: string, b: string, c: string, d: string): string
  {
    a + " " + b + " " + c + " " + d
  }

  lemma TokenHasNoSpace(t: string)
    requires IsToken(t)
    ensures forall j :: 0 <= j < |t| ==> t[j] != ' '
  {
    forall j | 0 <= j < |t|
      ensures t[j] != ' '
    {
      if j < 2 {
        assert t[..2][j] == t[j];
      }
    }
  }

  /** A match followed by a space: the scan resumes after the space. */
  lemma MatchThenSpace(s: string, p: nat)
    requires TokenAt(s, p) && (p + TokenLength < |s| ==> s[p + TokenLength] == ' ')
    ensures MatchPositions(s, p) == [p] + MatchPositions(s, p + TokenLength + 1)
  {
    var q := p + TokenLength;
    if q + TokenLength <= |s| {
      assert !TokenAt(s, q) by {
        assert s[q..q + TokenLength][..2][0] == ' ';
      }
    }
  }

  /** Where the four stamps and the three spaces sit in such a line. */
  lemma FourStampsLayout(a: string, b: string, c: string, d: string)
    requires |a| == TokenLength && |b| == TokenLength && |c| == TokenLength && |d| == TokenLength
    ensures var s := FourStamps(a, b, c, d);
      |s| == 51 && s[0..12] == a && s[12] == ' ' && s[13..25] == b && s[25] == ' ' &&
      s[26..38] == c && s[38] == ' ' && s[39..51] == d
  {
  }

  /** The pattern matches such a line at the start of each of its four stamps. */
  lemma FourStampsMatched(a: string, b: string, c: string, d: string)
    requires IsToken(a) && IsToken(b) && IsToken(c) && IsToken(d)
    ensures MatchPositions(FourStamps(a, b, c, d), 0) == [0, 13, 26, 39]
  {
    var s := FourStamps(a, b, c, d);
    FourStampsLayout(a, b, c, d);
    MatchThenSpace(s, 39);
    MatchThenSpace(s, 26);
    MatchThenSpace(s, 13);
    MatchThenSpace(s, 0);
    assert MatchPositions(s, 52) == [];
  }

  /** The pattern finds exactly the four stamps of such a line. */
  lemma FourStampsFound(a: string, b: string, c: string, d: string)
    requires IsToken(a) && IsToken(b) && IsToken(c) && IsToken(d)
    ensures var ms := FindAll(FourStamps(a, b, c, d));
      |ms| == 4 && ms[0] == a && ms[1] == b && ms[2] == c && ms[3] == d
    ensures FindAll(FourStamps(a, b, c, d)) == [a, b, c, d]
  {
    var s := FourStamps(a, b, c, d);
    FourStampsMatched(a, b, c, d);
    FourStampsLayout(a, b, c, d);
    var ps, ms := MatchPositions(s, 0), FindAll(s);
    assert ps[0] == 0 && ps[1] == 13 && ps[2] == 26 && ps[3] == 39;
  }

  /** Replacing a stamp in such a line replaces every stamp equal to it, and only those. */
  lemma FourStampsReplaced(a: string, b: string, c: string, d: string, pat: string, rep: string)
    requires IsToken(a) && IsToken(b) && IsToken(c) && IsToken(d) && IsToken(pat)
    ensures Replace(FourStamps(a, b, c, d), pat, rep) ==
      FourStamps(if a == pat then rep else a, if b == pat then rep else b,
                 if c == pat then rep else c, if d == pat then rep else d)
  {
    TokenHasNoSpace(pat);
    ReplaceAroundSpace(a + " " + b + " " + c, d, pat, rep);
    ReplaceAroundSpace(a + " " + b, c, pat, rep);
    ReplaceAroundSpace(a, b, pat, rep);
    ReplaceWord(a, pat, rep);
    ReplaceWord(b, pat, rep);
    ReplaceWord(c, pat, rep);
    ReplaceWord(d, pat, rep);
  }

  /** The inner loop, one match further on. */
  lemma StepAfter(st: StitchState, line: string, toks: seq<string>, k: nat, prev: (StitchState, string))
    requires AllTokens(toks) && k < |toks| && StepTokens(st, line, toks[..k]) == prev
    ensures AllTokens(toks[..k + 1])
    ensures StepTokens(st, line, toks[..k + 1]) == StepToken(prev.0, prev.1, toks[k])
  {
    StepTokensSnoc(st, line, toks, k);
  }

  /** A transcript of one line. */
  lemma StitchOneLine(line: string)
    ensures Stitch([line]) == [StepLine(Initial, line).1]
  {
    assert [line][..0] == [];
    StitchLastLine([line], [], StepLine(Initial, line).1);
  }

  /** The inner loop over four matches, one step at a time. */
  lemma FourSteps(line: string, toks: seq<string>, p1: (StitchState, string), p2: (StitchState, string),
                  p3: (StitchState, string), p4: (StitchState, string))
    requires |toks| == 4 && AllTokens(toks)
    requires StepToken(Initial, line, toks[0]) == p1 && StepToken(p1.0, p1.1, toks[1]) == p2
    requires StepToken(p2.0, p2.1, toks[2]) == p3 && StepToken(p3.0, p3.1, toks[3]) == p4
    ensures StepTokens(Initial, line, toks) == p4
  {
    assert toks[..0] == [];
    StepAfter(Initial, line, toks, 0, (Initial, line));
    StepAfter(Initial, line, toks, 1, p1);
    StepAfter(Initial, line, toks, 2, p2);
    StepAfter(Initial, line, toks, 3, p3);
    assert toks[..4] == toks;
  }

  /** A one-line transcript whose line holds four matches is the line after the four steps. */
  lemma StitchFourSteps(line: string, a: string, b: string, c: string, d: string, p1: (StitchState, string),
                        p2: (StitchState, string), p3: (StitchState, string), p4: (StitchState, string))
    requires |FindAll(line)| == 4
    requires FindAll(line)[0] == a && FindAll(line)[1] == b && FindAll(line)[2] == c && FindAll(line)[3] == d
    requires StepToken(Initial, line, a) == p1 && StepToken(p1.0, p1.1, b) == p2
    requires StepToken(p2.0, p2.1, c) == p3 && StepToken(p3.0, p3.1, d) == p4
    ensures Stitch([line]) == [p4.1]
  {
    FourSteps(line, FindAll(line), p1, p2, p3, p4);
    StitchOneLine(line);
  }

  /** A one-line transcript of four stamps, after four given steps of the inner loop. */
  lemma StitchFourStamps(a: string, b: string, c: string, d: string, p1: (StitchState, string),
                         p2: (StitchState, string), p3: (StitchState, string), p4: (StitchState, string))
    requires IsToken(a) && IsToken(b) && IsToken(c) && IsToken(d)
    requires StepToken(Initial, FourStamps(a, b, c, d), a) == p1 && StepToken(p1.0, p1.1, b) == p2
    requires StepToken(p2.0, p2.1, c) == p3 && StepToken(p3.0, p3.1, d) == p4
    ensures Stitch([FourStamps(a, b, c, d)]) == [p4.1]
  {
    FourStampsFound(a, b, c, d);
    StitchFourSteps(FourStamps(a, b, c, d), a, b, c, d, p1, p2, p3, p4);
  }

  /** One step of the inner loop on a line of four stamps. */
  lemma StepFourStamps(st: StitchState, a: string, b: string, c: string, d: string, tok: string, rep: string)
    requires IsToken(a) && IsToken(b) && IsToken(c) && IsToken(d) && IsToken(tok)
    requires ShiftTimestamp(tok, Advance(st, StampSeconds(tok)).offset) == rep
    ensures StepToken(st, FourStamps(a, b, c, d), tok) == (Advance(st, StampSeconds(tok)),
      FourStamps(if a == tok then rep else a, if b == tok then rep else b,
                 if c == tok then rep else c, if d == tok then rep else d))
  {
    FourStampsReplaced(a, b, c, d, tok, rep);
  }

  /**
   * Four stamps `a b c d` of distinct values where `b` reads as a reset past `a`, `c` and
   * `d` do not, and shifting `b` by `a`'s value gives the text `d`; `e` and `f` are `c` and `d`
   * shifted by `a`'s value.
   */
  predicate RewriteCollision(a: string, b: string, c: string, d: string, e: string, f: string)
  {
    IsToken(a) && IsToken(b) && IsToken(c) && IsToken(d) && IsToken(e) &&
    StampSeconds(b) < StampSeconds(a) && StampSeconds(b) <= StampSeconds(c) < StampSeconds(d) &&
    StampSeconds(a) != StampSeconds(c) && StampSeconds(a) != StampSeconds(d) &&
    StampSeconds(e) != StampSeconds(d) &&
    ShiftTimestamp(a, 0) == a && ShiftTimestamp(b, StampSeconds(a)) == d &&
    ShiftTimestamp(c, StampSeconds(a)) == e && ShiftTimestamp(d, StampSeconds(a)) == f
  }

  /**
   * Three canonical stamps `a b c` of distinct values where `b` does not read as a reset
   * past `a` and `c` does; `e` and `f` are `c` and `b` shifted by `b`'s value.
   */
  predicate DropAfter(a: string, b: string, c: string, e: string, f: string)
  {
    IsToken(a) && IsToken(b) && IsToken(c) && IsToken(e) &&
    StampSeconds(a) < StampSeconds(b) && StampSeconds(c) < StampSeconds(b) &&
    StampSeconds(a) != StampSeconds(c) && StampSeconds(e) != StampSeconds(b) &&
    ShiftTimestamp(a, 0) == a && ShiftTimestamp(b, 0) == b &&
    ShiftTimestamp(c, StampSeconds(b)) == e && ShiftTimestamp(b, StampSeconds(b)) == f
  }

  /** The four steps of the pass in `PassRewritesEarlierStamp`. */
  lemma CollisionSteps(a: string, b: string, c: string, d: string, e: string, f: string)
    requires RewriteCollision(a, b, c, d, e, f)
    ensures var sa := StampSeconds(a);
      var p1 := (StitchState(0, sa), FourStamps(a, b, c, d));
      var p2 := (StitchState(sa, StampSeconds(b)), FourStamps(a, d, c, d));
      var p3 := (StitchState(sa, StampSeconds(c)), FourStamps(a, d, e, d));
      StepToken(Initial, p1.1, a) == p1 && StepToken(p1.0, p1.1, b) == p2 &&
      StepToken(p2.0, p2.1, c) == p3 &&
      StepToken(p3.0, p3.1, d) == (StitchState(sa, StampSeconds(d)), FourStamps(a, f, e, f))
  {
    var line := FourStamps(a, b, c, d);
    var sa, sb, sc := StampSeconds(a), StampSeconds(b), StampSeconds(c);
    var p1 := (StitchState(0, sa), line);
    var p2 := (StitchState(sa, sb), FourStamps(a, d, c, d));
    var p3 := (StitchState(sa, sc), FourStamps(a, d, e, d));
    assert StepToken(Initial, line, a) == p1 by { StepFourStamps(Initial, a, b, c, d, a, a); }
    assert StepToken(p1.0, p1.1, b) == p2 by {
      assert Advance(p1.0, sb).offset == sa;
      StepFourStamps(p1.0, a, b, c, d, b, d);
    }
    assert StepToken(p2.0, p2.1, c) == p3 by {
      assert Advance(p2.0, sc).offset == sa;
      StepFourStamps(p2.0, a, d, c, d, c, e);
    }
    assert StepToken(p3.0, p3.1, d) == (StitchState(sa, StampSeconds(d)), FourStamps(a, f, e, f)) by {
      assert Advance(p3.0, StampSeconds(d)).offset == sa;
      StepFourStamps(p3.0, a, d, e, d, d, f);
    }
  }

  /**
   * A pass over a line of four distinct stamps `a b c d` where `b` reads as a reset past
   * `a` and shifting `b` by `a`'s value gives the text `d`: shifting `d` to `f` then also
   * rewrites the second stamp, which ends at `f` rather than at `d`.
   */
  lemma PassRewritesEarlierStamp(a: string, b: string, c: string, d: string, e: string, f: string)
    requires RewriteCollision(a, b, c, d, e, f)
    ensures Stitch([FourStamps(a, b, c, d)]) == [FourStamps(a, f, e, f)]
  {
    var line := FourStamps(a, b, c, d);
    var sa := StampSeconds(a);
    var p1 := (StitchState(0, sa), line);
    var p2 := (StitchState(sa, StampSeconds(b)), FourStamps(a, d, c, d));
    var p3 := (StitchState(sa, StampSeconds(c)), FourStamps(a, d, e, d));
    var p4 := (StitchState(sa, StampSeconds(d)), FourStamps(a, f, e, f));
    CollisionSteps(a, b, c, d, e, f);
    StitchFourStamps(a, b, c, d, p1, p2, p3, p4);
  }

  /**
   * A pass over a line of stamps `a b c b` where `c` reads as a reset past `b`: the third
   * and fourth stamps are shifted by `b`'s value, so the line is moved.
   */
  lemma PassAfterDrop(a: string, b: string, c: string, e: string, f: string)
    requires DropAfter(a, b, c, e, f)
    ensures Stitch([FourStamps(a, b, c, b)]) == [FourStamps(a, f, e, f)]
  {
    var line := FourStamps(a, b, c, b);
    var sa, sb, sc := StampSeconds(a), StampSeconds(b), StampSeconds(c);
    var p1 := (StitchState(0, sa), line);
    var p2 := (StitchState(0, sb), line);
    var p3 := (StitchState(sb, sc), FourStamps(a, b, e, b));
    var p4 := (StitchState(sb, sb), FourStamps(a, f, e, f));
    assert StepToken(Initial, line, a) == p1 by { StepFourStamps(Initial, a, b, c, b, a, a); }
    assert StepToken(p1.0, p1.1, b) == p2 by {
      assert Advance(p1.0, sb).offset == 0;
      StepFourStamps(p1.0, a, b, c, b, b, b);
    }
    assert StepToken(p2.0, p2.1, c) == p3 by {
      assert Advance(p2.0, sc).offset == sb;
      StepFourStamps(p2.0, a, b, c, b, c, e);
    }
    assert StepToken(p3.0, p3.1, b) == p4 by {
      assert Advance(p3.0, sb).offset == sb;
      StepFourStamps(p3.0, a, b, e, b, b, f);
    }
    StitchFourStamps(a, b, c, b, p1, p2, p3, p4);
  }

  /**
   * `line.replace(match, adjusted_time)` rewrites every copy of the matched text in the
   * line, including one an earlier match was just rewritten to. On a line `a b c d`
   * where the drop to `b` shifts the rest and `b` is shifted to the text `d`, the
   * fourth stamp's rewrite moves the second stamp again: it ends at `f` (`d` shifted)
   * rather than at `d`. The written times then drop within the line (from `f` to `e`),
   * and a second pass reads that drop as a reset and moves the line again. Comma stamps
   * of 10, 5, 7 and 15 seconds are such a line: the first pass writes 10 25 17 25 where
   * 10 15 17 25 is meant, and the second pass writes 10 50 42 50.
   */
  lemma ReplaceRewritesEarlierStamp(a: string, b: string, c: string, d: string, e: string, f: string,
                                    g: string, h: string)
    requires RewriteCollision(a, b, c, d, e, f) && DropAfter(a, f, e, g, h)
    ensures Stitch([FourStamps(a, b, c, d)]) == [FourStamps(a, f, e, f)]
    ensures Stitch(Stitch([FourStamps(a, b, c, d)])) == [FourStamps(a, h, g, h)]
  {
    PassRewritesEarlierStamp(a, b, c, d, e, f);
    PassAfterDrop(a, f, e, g, h);
  }

  /** The comma stamp `00:00:SS,000` of a number of seconds below 60. */
  function Clock(sec: nat): string
    requires sec < 60
  {
    ['0', '0', ':', '0', '0', ':', DigitChar(sec / 10), DigitChar(sec % 10), ',', '0', '0', '0']
  }

  lemma ClockToken(sec: nat)
    requires sec < 60
    ensures IsToken(Clock(sec)) && StampSeconds(Clock(sec)) == sec
  {
    var t := Clock(sec);
    assert t[..2] == "00";
    TokenFieldValues(t);
  }

  /** Shifting a clock stamp within the minute gives the clock stamp of the sum. */
  lemma ClockShift(sec: nat, offset: nat)
    requires sec + offset < 60
    ensures IsToken(Clock(sec)) && ShiftTimestamp(Clock(sec), offset) == Clock(sec + offset)
  {
    ClockToken(sec);
    TokenFieldValues(Clock(sec));
    ShiftOfToken(Clock(sec), offset, sec + offset, 0);
    RenderShort(sec + offset, 0, 0, 0, sec + offset);
  }

  lemma CollisionWitness(a: nat, b: nat, c: nat, d: nat, e: nat, f: nat)
    requires a == 10 && b == 5 && c == 7 && d == 15 && e == 17 && f == 25
    ensures RewriteCollision(Clock(a), Clock(b), Clock(c), Clock(d), Clock(e), Clock(f))
  {
    ClockToken(a); ClockToken(b); ClockToken(c); ClockToken(d); ClockToken(e);
    ClockShift(a, 0); ClockShift(b, a); ClockShift(c, a); ClockShift(d, a);
  }

  lemma DropWitness(a: nat, f: nat, e: nat, g: nat, h: nat)
    requires a == 10 && f == 25 && e == 17 && g == 42 && h == 50
    ensures DropAfter(Clock(a), Clock(f), Clock(e), Clock(g), Clock(h))
  {
    ClockToken(a); ClockToken(f); ClockToken(e); ClockToken(g);
    DropShifts(a, f, e);
  }

  lemma DropShifts(a: nat, f: nat, e: nat)
    requires a == 10 && f == 25 && e == 17
    ensures IsToken(Clock(a)) && ShiftTimestamp(Clock(a), 0) == Clock(a)
    ensures IsToken(Clock(f)) && ShiftTimestamp(Clock(f), 0) == Clock(f)
    ensures IsToken(Clock(e)) && ShiftTimestamp(Clock(e), f) == Clock(e + f)
    ensures ShiftTimestamp(Clock(f), f) == Clock(f + f)
  {
    ClockShift(a, 0); ClockShift(f, 0); ClockShift(e, f); ClockShift(f, f);
  }

  /**
   * The stamps of 10, 5, 7 and 15 seconds on one line: the pass writes 10 25 17 25,
   * and a second pass writes 10 50 42 50.
   */
  lemma CollisionInstance(a: nat, b: nat, c: nat, d: nat, e: nat, f: nat, g: nat, h: nat)
    requires a == 10 && b == 5 && c == 7 && d == 15 && e == 17 && f == 25 && g == 42 && h == 50
    ensures Stitch([FourStamps(Clock(a), Clock(b), Clock(c), Clock(d))]) ==
      [FourStamps(Clock(a), Clock(f), Clock(e), Clock(f))]
    ensures Stitch(Stitch([FourStamps(Clock(a), Clock(b), Clock(c), Clock(d))])) ==
      [FourStamps(Clock(a), Clock(h), Clock(g), Clock(h))]
  {
    CollisionWitness(a, b, c, d, e, f);
    DropWitness(a, f, e, g, h);
    ReplaceRewritesEarlierStamp(Clock(a), Clock(b), Clock(c), Clock(d), Clock(e), Clock(f), Clock(g), Clock(h));
  }

  // ---------------------------------------------------------------------------
  // The corrected pass: each match rewritten where it was found
  // ---------------------------------------------------------------------------

  /** The offset in force after each value of a run from `st`. */
  function OffsetsFrom(st: StitchState, vals: seq<nat>): (offs: seq<nat>)
    ensures |offs| == |vals|
  {
    seq(|vals|, k requires 0 <= k < |vals| => Run(st, vals[..k + 1]).offset)
  }

  /** `f` applied to the elements of `xs` and `ys` pairwise. */
  function Pairwise<A, B, C>(f: (A, B) --> C, xs: seq<A>, ys: seq<B>): (r: seq<C>)
    requires |ys| == |xs| && forall k :: 0 <= k < |xs| ==> f.requires(xs[k], ys[k])
    ensures |r| == |xs|
    ensures forall k :: 0 <= k < |xs| ==> r[k] == f(xs[k], ys[k])
  {
    seq(|xs|, k requires 0 <= k < |xs| => f(xs[k], ys[k]))
  }

  lemma PairwiseAppend<A, B, C>(f: (A, B) --> C, xa: seq<A>, xb: seq<A>, ya: seq<B>, yb: seq<B>)
    requires |ya| == |xa| && forall k :: 0 <= k < |xa| ==> f.requires(xa[k], ya[k])
    requires |yb| == |xb| && forall k :: 0 <= k < |xb| ==> f.requires(xb[k], yb[k])
    ensures forall k :: 0 <= k < |xa + xb| ==> f.requires((xa + xb)[k], (ya + yb)[k])
    ensures Pairwise(f, xa + xb, ya + yb) == Pairwise(f, xa, ya) + Pairwise(f, xb, yb)
  {
    assert forall k :: 0 <= k < |xb| ==> (xa + xb)[|xa| + k] == xb[k] && (ya + yb)[|xa| + k] == yb[k];
  }

  /** `shift_timestamp` as a value, for a stamp and an offset. */
  const Shift: (string, int) --> string := (t: string, offset: int) requires IsStamp(t) => ShiftTimestamp(t, offset)

  /** Each token shifted by its own offset. */
  function ShiftAll(toks: seq<string>, offs: seq<nat>): (r: seq<string>)
    requires AllTokens(toks) && |offs| == |toks|
    ensures |r| == |toks|
  {
    Pairwise(Shift, toks, offs)
  }

  /** The adjusted stamps of a run of tokens from `st`: each shifted by the offset in force after it. */
  function Adjusted(st: StitchState, toks: seq<string>): (r: seq<string>)
    requires AllTokens(toks)
    ensures |r| == |toks|
  {
    ShiftAll(toks, OffsetsFrom(st, TokenValues(toks)))
  }

  /**
   * The corrected inner loop: the counters follow the line's matches as in `StepLine`,
   * but each match is rewritten at the position where it was found, as
   * `timestamp_pattern.sub` with a function would do, instead of by `line.replace`.
   */
  function StepLineAtMatches(st: StitchState, line: string): (StitchState, string)
  {
    var toks := FindAll(line);
    MatchPositionsSeparated(line, 0);
    (Run(st, TokenValues(toks)), SpliceAll(line, MatchPositions(line, 0), Adjusted(st, toks)))
  }

  /** The corrected outer loop. */
  function StitchAtMatchesFrom(st: StitchState, lines: seq<string>): (StitchState, seq<string>)
  {
    if lines == [] then (st, [])
    else
      var prev := StitchAtMatchesFrom(st, lines[..|lines| - 1]);
      var next := StepLineAtMatches(prev.0, lines[|lines| - 1]);
      (next.0, prev.1 + [next.1])
  }

  /** The adjusted lines of the corrected pass. */
  function StitchAtMatches(lines: seq<string>): seq<string>
  {
    StitchAtMatchesFrom(Initial, lines).1
  }

  lemma OffsetsAppend(st: StitchState, va: seq<nat>, vb: seq<nat>)
    ensures OffsetsFrom(st, va + vb) == OffsetsFrom(st, va) + OffsetsFrom(Run(st, va), vb)
  {
    var lhs, rhs := OffsetsFrom(st, va + vb), OffsetsFrom(st, va) + OffsetsFrom(Run(st, va), vb);
    forall k | 0 <= k < |lhs|
      ensures lhs[k] == rhs[k]
    {
      if k < |va| {
        OffsetsOfFront(st, va, vb, k);
      } else {
        OffsetsOfBack(st, va, vb, k - |va|);
      }
    }
  }

  lemma OffsetsOfFront(st: StitchState, va: seq<nat>, vb: seq<nat>, k: nat)
    requires k < |va|
    ensures OffsetsFrom(st, va + vb)[k] == OffsetsFrom(st, va)[k]
  {
    assert (va + vb)[..k + 1] == va[..k + 1];
  }

  lemma OffsetsOfBack(st: StitchState, va: seq<nat>, vb: seq<nat>, i: nat)
    requires i < |vb|
    ensures OffsetsFrom(st, va + vb)[|va| + i] == OffsetsFrom(Run(st, va), vb)[i]
  {
    assert (va + vb)[..|va| + i + 1] == va + vb[..i + 1];
    RunAppend(st, va, vb[..i + 1]);
  }

  /** The adjusted stamps of two runs, one after the other. */
  lemma AdjustedAppend(st: StitchState, a: seq<string>, b: seq<string>)
    requires AllTokens(a) && AllTokens(b)
    ensures AllTokens(a + b)
    ensures Adjusted(st, a + b) == Adjusted(st, a) + Adjusted(Run(st, TokenValues(a)), b)
  {
    TokenValuesAppend(a, b);
    OffsetsAppend(st, TokenValues(a), TokenValues(b));
    PairwiseAppend(Shift, a, b, OffsetsFrom(st, TokenValues(a)), OffsetsFrom(Run(st, TokenValues(a)), TokenValues(b)));
  }

  /** The corrected pass moves the counters exactly as the pass as written does. */
  lemma {:induction false} StitchAtMatchesCounters(st: StitchState, lines: seq<string>)
    ensures StitchAtMatchesFrom(st, lines).0 == Run(st, TokenValues(TokenTrace(lines)))
    ensures StitchAtMatchesFrom(st, lines).0 == StitchFrom(st, lines).0
    ensures |StitchAtMatchesFrom(st, lines).1| == |lines|
  {
    StitchFollowsRun(st, lines);
    if lines != [] {
      var front, line := lines[..|lines| - 1], lines[|lines| - 1];
      StitchAtMatchesCounters(st, front);
      TokenValuesAppend(TokenTrace(front), FindAll(line));
      RunAppend(st, TokenValues(TokenTrace(front)), TokenValues(FindAll(line)));
    }
  }

  /** The matches of output lines followed by one more line. */
  lemma TraceOfAppend(out: seq<string>, line: string)
    ensures TokenTrace(out + [line]) == TokenTrace(out) + FindAll(line)
  {
    var all := out + [line];
    assert all != [] && all[..|all| - 1] == out && all[|all| - 1] == line;
  }

  lemma AllTokensSplit(a: seq<string>, b: seq<string>)
    requires AllTokens(a + b)
    ensures AllTokens(a) && AllTokens(b)
  {
    forall k | 0 <= k < |a|
      ensures IsToken(a[k])
    {
      assert (a + b)[k] == a[k];
    }
    forall k | 0 <= k < |b|
      ensures IsToken(b[k])
    {
      assert (a + b)[|a| + k] == b[k];
    }
  }

  /**
   * When every adjusted stamp is a token, reading the corrected output back finds
   * exactly the adjusted stamps, in order.
   */
  lemma {:induction false} StitchAtMatchesTrace(st: StitchState, lines: seq<string>)
    requires AllTokens(Adjusted(st, TokenTrace(lines)))
    ensures TokenTrace(StitchAtMatchesFrom(st, lines).1) == Adjusted(st, TokenTrace(lines))
  {
    if lines != [] {
      var front, line := lines[..|lines| - 1], lines[|lines| - 1];
      var prev := StitchAtMatchesFrom(st, front);
      StitchAtMatchesCounters(st, front);
      AdjustedAppend(st, TokenTrace(front), FindAll(line));
      AllTokensSplit(Adjusted(st, TokenTrace(front)), Adjusted(prev.0, FindAll(line)));
      StitchAtMatchesTrace(st, front);
      SpliceAllFound(line, Adjusted(prev.0, FindAll(line)));
      TraceOfAppend(prev.1, StepLineAtMatches(prev.0, line).1);
    }
  }

  /** From the start of a transcript, the k-th adjusted stamp is the k-th token shifted by its offset. */
  lemma AdjustedAt(toks: seq<string>, k: nat)
    requires AllTokens(toks) && k < |toks|
    ensures Adjusted(Initial, toks)[k] == ShiftTimestamp(toks[k], OffsetAt(TokenValues(toks), k))
  {
    var offs := OffsetsFrom(Initial, TokenValues(toks));
    assert offs[k] == OffsetAt(TokenValues(toks), k);
    assert Adjusted(Initial, toks)[k] == Shift(toks[k], offs[k]);
  }

  lemma AdjustedIsToken(toks: seq<string>, k: nat)
    requires AllTokens(toks) && k < |toks|
    requires OffsetAt(TokenValues(toks), k) + TokenValues(toks)[k] < 100 * 3600
    ensures IsToken(Adjusted(Initial, toks)[k])
  {
    AdjustedAt(toks, k);
    ShiftCarry(toks[k], OffsetAt(TokenValues(toks), k));
  }

  lemma AdjustedOrdered(toks: seq<string>, i: nat, j: nat)
    requires AllTokens(toks) && i <= j < |toks|
    ensures IsStamp(Adjusted(Initial, toks)[i]) && IsStamp(Adjusted(Initial, toks)[j])
    ensures StampSeconds(Adjusted(Initial, toks)[i]) <= StampSeconds(Adjusted(Initial, toks)[j])
  {
    AdjustedAt(toks, i);
    AdjustedAt(toks, j);
    RenderedTimesNonDecreasing(toks, i, j);
  }

  /**
   * The property the pass is meant to have: while every adjusted time stays below 100
   * hours, the stamps the corrected pass leaves in the transcript, read back in order,
   * are the adjusted stamps and never decrease.
   */
  lemma StitchAtMatchesNonDecreasing(lines: seq<string>)
    requires var vals := TokenValues(TokenTrace(lines));
      forall k :: 0 <= k < |vals| ==> OffsetAt(vals, k) + vals[k] < 100 * 3600
    ensures var out := TokenTrace(StitchAtMatches(lines));
      out == Adjusted(Initial, TokenTrace(lines)) &&
      forall i, j :: 0 <= i <= j < |out| ==> StampSeconds(out[i]) <= StampSeconds(out[j])
  {
    var toks := TokenTrace(lines);
    forall k | 0 <= k < |toks|
      ensures IsToken(Adjusted(Initial, toks)[k])
    {
      AdjustedIsToken(toks, k);
    }
    StitchAtMatchesTrace(Initial, lines);
    forall i, j | 0 <= i <= j < |toks|
      ensures StampSeconds(Adjusted(Initial, toks)[i]) <= StampSeconds(Adjusted(Initial, toks)[j])
    {
      AdjustedOrdered(toks, i, j);
    }
  }

  /** The offsets of a run `a b c d` where only `b` drops. */
  lemma OffsetsOfOneDrop(a: nat, b: nat, c: nat, d: nat)
    requires b < a && b <= c <= d
    ensures OffsetsFrom(Initial, [a, b, c, d]) == [0, a, a, a]
  {
    var vals := [a, b, c, d];
    assert [a][..0] == [] && [a, b][..1] == [a] && [a, b, c][..2] == [a, b] && vals[..3] == [a, b, c];
    assert Run(Initial, [a]) == StitchState(0, a);
    assert Run(Initial, [a, b]) == StitchState(a, b);
    assert Run(Initial, [a, b, c]) == StitchState(a, c);
    assert Run(Initial, vals) == StitchState(a, d);
    assert vals[..1] == [a] && vals[..2] == [a, b] && vals[..4] == vals;
  }

  /** `Pairwise` over four pairs is known from its four values. */
  lemma PairwiseFour<A, B, C>(f: (A, B) --> C, x0: A, x1: A, x2: A, x3: A, y0: B, y1: B, y2: B, y3: B,
                              r0: C, r1: C, r2: C, r3: C)
    requires f.requires(x0, y0) && f.requires(x1, y1) && f.requires(x2, y2) && f.requires(x3, y3)
    requires f(x0, y0) == r0 && f(x1, y1) == r1 && f(x2, y2) == r2 && f(x3, y3) == r3
    ensures Pairwise(f, [x0, x1, x2, x3], [y0, y1, y2, y3]) == [r0, r1, r2, r3]
  {
    var p := Pairwise(f, [x0, x1, x2, x3], [y0, y1, y2, y3]);
    assert p[0] == r0 && p[1] == r1 && p[2] == r2 && p[3] == r3;
  }

  /** Four tokens, and the seconds they read as. */
  lemma FourTokens(a: string, b: string, c: string, d: string)
    requires IsToken(a) && IsToken(b) && IsToken(c) && IsToken(d)
    ensures AllTokens([a, b, c, d])
    ensures TokenValues([a, b, c, d]) == [StampSeconds(a), StampSeconds(b), StampSeconds(c), StampSeconds(d)]
  {
    var toks := [a, b, c, d];
    assert forall k :: 0 <= k < 4 ==> toks[k] in {a, b, c, d};
  }

  /** Four stamps whose second reads as a reset past the first, and no later one does. */
  lemma AdjustedOneDrop(a: string, b: string, c: string, d: string)
    requires IsToken(a) && IsToken(b) && IsToken(c) && IsToken(d)
    requires StampSeconds(b) < StampSeconds(a) && StampSeconds(b) <= StampSeconds(c) <= StampSeconds(d)
    ensures AllTokens([a, b, c, d])
    ensures var sa := StampSeconds(a);
      Adjusted(Initial, [a, b, c, d]) == Pairwise(Shift, [a, b, c, d], [0, sa, sa, sa])
  {
    FourTokens(a, b, c, d);
    OffsetsOfOneDrop(StampSeconds(a), StampSeconds(b), StampSeconds(c), StampSeconds(d));
  }

  /** The adjusted stamps of a line meeting `RewriteCollision`. */
  lemma AdjustedOfCollision(a: string, b: string, c: string, d: string, e: string, f: string)
    requires RewriteCollision(a, b, c, d, e, f)
    ensures AllTokens([a, b, c, d]) && Adjusted(Initial, [a, b, c, d]) == [a, d, e, f]
  {
    var sa := StampSeconds(a);
    AdjustedOneDrop(a, b, c, d);
    PairwiseFour(Shift, a, b, c, d, 0, sa, sa, sa, a, d, e, f);
  }

  /** A one-line transcript's matches are the line's. */
  lemma TraceOfOneLine(line: string)
    ensures TokenTrace([line]) == FindAll(line)
  {
    assert [line][..0] == [];
  }

  /** On a line of four stamps, the corrected pass leaves exactly their adjusted stamps. */
  lemma CorrectedLine(a: string, b: string, c: string, d: string, r: seq<string>)
    requires IsToken(a) && IsToken(b) && IsToken(c) && IsToken(d)
    requires AllTokens([a, b, c, d]) && AllTokens(r) && Adjusted(Initial, [a, b, c, d]) == r
    ensures TokenTrace(StitchAtMatches([FourStamps(a, b, c, d)])) == r
  {
    var line := FourStamps(a, b, c, d);
    FourStampsFound(a, b, c, d);
    TraceOfOneLine(line);
    StitchAtMatchesTrace(Initial, [line]);
  }

  /**
   * On the line of `PassRewritesEarlierStamp`, the corrected pass leaves the stamps
   * `a d e f`, where the pass as written leaves `a f e f`: the second stamp stays at `d`.
   */
  lemma CorrectedCollision(a: string, b: string, c: string, d: string, e: string, f: string)
    requires RewriteCollision(a, b, c, d, e, f) && IsToken(f)
    ensures TokenTrace(StitchAtMatches([FourStamps(a, b, c, d)])) == [a, d, e, f]
  {
    AdjustedOfCollision(a, b, c, d, e, f);
    FourTokens(a, d, e, f);
    CorrectedLine(a, b, c, d, [a, d, e, f]);
  }

  /**
   * The corrected pass on the line of `CollisionInstance`: read back, its stamps are
   * 10, 15, 17 and 25 seconds, where the pass as written leaves 10 25 17 25.
   */
  lemma CorrectedInstance(a: nat, b: nat, c: nat, d: nat, e: nat, f: nat)
    requires a == 10 && b == 5 && c == 7 && d == 15 && e == 17 && f == 25
    ensures TokenTrace(StitchAtMatches([FourStamps(Clock(a), Clock(b), Clock(c), Clock(d))])) ==
      [Clock(a), Clock(d), Clock(e), Clock(f)]
  {
    CollisionWitness(a, b, c, d, e, f);
    ClockToken(f);
    CorrectedCollision(Clock(a), Clock(b), Clock(c), Clock(d), Clock(e), Clock(f));
  }
}
