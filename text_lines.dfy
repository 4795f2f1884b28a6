/**
 * Text files as line lists: `readlines()` cuts a text after every newline and keeps a
 * final piece that has none; `writelines()` writes the pieces back to back.
 */
module TextLines {

  /** `writelines(lines)`: the pieces concatenated in order. */
  function Join(lines: seq<string>): string
  {
    if lines == [] then [] else lines[0] + Join(lines[1..])
  }

  /**
   * The lines `readlines()` returns: none is empty, a newline occurs only as a line's
   * last character, and every line but the last ends with one.
   */
  predicate WellFormedLines(lines: seq<string>)
  {
    (forall i :: 0 <= i < |lines| ==> lines[i] != []) &&
    (forall i, j :: 0 <= i < |lines| && 0 <= j < |lines[i]| - 1 ==> lines[i][j] != '\n') &&
    (forall i :: 0 <= i < |lines| - 1 ==> lines[i][|lines[i]| - 1] == '\n')
  }

  /** The length of the first line of a non-empty text: up to and including the first newline. */
  function LineEnd(text: string): (n: nat)
    requires text != []
    ensures 1 <= n <= |text|
    ensures forall j :: 0 <= j < n - 1 ==> text[j] != '\n'
    ensures n < |text| ==> text[n - 1] == '\n'
    ensures text[n - 1] == '\n' || n == |text|
  {
    if text[0] == '\n' || |text| == 1 then 1 else 1 + LineEnd(text[1..])
  }

  /** `readlines()` on a text. */
  function SplitLines(text: string): (lines: seq<string>)
    decreases |text|
    ensures Join(lines) == text
  {
    if text == [] then []
    else
      var n := LineEnd(text);
      var rest := SplitLines(text[n..]);
      var lines := [text[..n]] + rest;
      assert lines[1..] == rest;
      assert text == text[..n] + text[n..];
      lines
  }

  /** What `readlines()` returns has the shape of a line list. */
  lemma {:induction false} SplitLinesWellFormed(text: string)
    decreases |text|
    ensures WellFormedLines(SplitLines(text))
  {
    if text != [] {
      var n := LineEnd(text);
      var rest := SplitLines(text[n..]);
      var lines := [text[..n]] + rest;
      SplitLinesWellFormed(text[n..]);
      assert forall i :: 1 <= i < |lines| ==> lines[i] == rest[i - 1];
    }
  }

  lemma JoinAppend(a: seq<string>, b: seq<string>)
    ensures Join(a + b) == Join(a) + Join(b)
  {
    if a != [] {
      assert (a + b)[1..] == a[1..] + b;
      JoinAppend(a[1..], b);
    } else {
      assert a + b == b;
    }
  }

  /**
   * The other direction of the round trip: reading back what `writelines` wrote gives
   * the same lines, whenever they have the shape `readlines` produces.
   */
  lemma {:induction false} SplitJoin(lines: seq<string>)
    requires WellFormedLines(lines)
    decreases |lines|
    ensures SplitLines(Join(lines)) == lines
  {
    if lines != [] {
      var text := Join(lines);
      var first, rest := lines[0], lines[1..];
      assert text == first + Join(rest);
      assert WellFormedLines(rest) by {
        assert forall i :: 0 <= i < |rest| ==> rest[i] == lines[i + 1];
      }
      SplitJoin(rest);
      FirstLineEnd(first, Join(rest), |rest| == 0);
      assert lines == [first] + rest;
    }
  }

  /** The first line of `first + more` is `first`, when `first` is a line of the right shape. */
  lemma FirstLineEnd(first: string, more: string, isLast: bool)
    requires first != [] && forall j :: 0 <= j < |first| - 1 ==> first[j] != '\n'
    requires isLast ==> more == []
    requires !isLast ==> first[|first| - 1] == '\n'
    ensures LineEnd(first + more) == |first|
    ensures (first + more)[..|first|] == first && (first + more)[|first|..] == more
  {
    var text := first + more;
    assert text[..|first|] == first;
    assert forall j :: 0 <= j < |first| ==> text[j] == first[j];
  }

  /**
   * Reading a concatenation whose first part ends at a line boundary gives the lines
   * of each part in turn.
   */
  lemma SplitLinesAppend(a: string, b: string)
    requires a == [] || a[|a| - 1] == '\n'
    ensures SplitLines(a + b) == SplitLines(a) + SplitLines(b)
  {
    JoinedSplits(a, b);
    SplitJoin(SplitLines(a) + SplitLines(b));
  }

  lemma JoinedSplits(a: string, b: string)
    requires a == [] || a[|a| - 1] == '\n'
    ensures WellFormedLines(SplitLines(a) + SplitLines(b))
    ensures Join(SplitLines(a) + SplitLines(b)) == a + b
  {
    SplitsWellFormed(a, b);
    JoinAppend(SplitLines(a), SplitLines(b));
  }

  lemma SplitsWellFormed(a: string, b: string)
    requires a == [] || a[|a| - 1] == '\n'
    ensures WellFormedLines(SplitLines(a) + SplitLines(b))
  {
    var la, lb := SplitLines(a), SplitLines(b);
    SplitLinesWellFormed(a);
    SplitLinesWellFormed(b);
    if la != [] {
      JoinLastChar(la);
    }
    WellFormedAppend(la, lb);
  }

  /** The last character of a joined list is that of its last line. */
  lemma JoinLastChar(lines: seq<string>)
    requires lines != [] && lines[|lines| - 1] != []
    ensures var t, l := Join(lines), lines[|lines| - 1]; |t| >= |l| && t[|t| - 1] == l[|l| - 1]
  {
    var front, l := lines[..|lines| - 1], lines[|lines| - 1];
    assert lines == front + [l];
    JoinAppend(front, [l]);
    assert Join([l]) == l + Join([]);
  }

  lemma WellFormedAppend(a: seq<string>, b: seq<string>)
    requires WellFormedLines(a) && WellFormedLines(b)
    requires a != [] ==> a[|a| - 1][|a[|a| - 1]| - 1] == '\n'
    ensures WellFormedLines(a + b)
  {
    var c := a + b;
    assert forall i :: 0 <= i < |a| ==> c[i] == a[i];
    assert forall i :: |a| <= i < |c| ==> c[i] == b[i - |a|];
  }
}
