/**
 * `merge_transcripts`: copy the chunk transcripts, each followed by a newline, into the
 * final transcript; delete the chunk transcripts; then rewrite the final transcript with
 * its timestamps moved onto the whole recording's timeline.
 */
module TranscriptMerge {
  import opened NameOrder
  import opened TextLines
  import opened Stitcher

  datatype Option<T> = None | Some(value: T)

  /** The files the merge reads, writes and deletes: the text each name holds. */
  class FileSystem {
    var files: map<string, string>

    constructor (initial: map<string, string>)
      ensures files == initial
    {
      files := initial;
    }

    /**
     * `open(name).readlines()`: nothing when the file does not exist (the `open` raises),
     * otherwise lines of the `readlines` shape that make up the file's text.
     */
    method ReadLines(name: string) returns (lines: Option<seq<string>>)
      ensures lines.Some? <==> name in files
      ensures lines.Some? ==> Join(lines.value) == files[name] && WellFormedLines(lines.value)
    {
      if name in files {
        lines := Some(SplitLines(files[name]));
        SplitLinesWellFormed(files[name]);
      } else {
        lines := None;
      }
    }

    /** `open(name, "w")` and `writelines(lines)`: the file now holds exactly the lines. */
    method WriteLines(name: string, lines: seq<string>)
      modifies this
      ensures files == old(files)[name := Join(lines)]
    {
      files := files[name := Join(lines)];
    }

    /** `writelines(lines)` on a file already open for writing: the lines go at its end. */
    method AppendLines(name: string, lines: seq<string>)
      requires name in files
      modifies this
      ensures files == old(files)[name := old(files)[name] + Join(lines)]
    {
      files := files[name := files[name] + Join(lines)];
    }

    /** `os.remove(name)`: reports failure, and changes nothing, when the file does not exist. */
    method Remove(name: string) returns (removed: bool)
      modifies this
      ensures removed <==> name in old(files)
      ensures files == old(files) - {name}
    {
      removed := name in files;
      files := files - {name};
    }
  }

  /** How a merge ends: it completes, or a file it opens or deletes does not exist. */
  datatype MergeOutcome = Merged | MissingFile(name: string)

  // ---------------------------------------------------------------------------
  // The three phases, as functions of the files
  // ---------------------------------------------------------------------------

  /**
   * The first loop: the text written to the final transcript (each transcript in turn,
   * followed by a newline) and the first transcript that could not be opened, if any.
   */
  function Gather(files: map<string, string>, order: seq<string>): (string, Option<string>)
  {
    if order == [] then ("", None)
    else
      var prev := Gather(files, order[..|order| - 1]);
      var name := order[|order| - 1];
      if prev.1.Some? then prev
      else if name !in files then (prev.0, Some(name))
      else (prev.0 + files[name] + "\n", None)
  }

  /** The second loop: the files left after deleting `names` in order, stopping at the first that is gone. */
  function RemoveAll(files: map<string, string>, names: seq<string>): (map<string, string>, Option<string>)
  {
    if names == [] then (files, None)
    else
      var prev := RemoveAll(files, names[..|names| - 1]);
      var name := names[|names| - 1];
      if prev.1.Some? then prev
      else if name !in prev.0 then (prev.0, Some(name))
      else (prev.0 - {name}, None)
  }

  /**
   * The whole merge: the outcome and the files afterwards, when the transcripts are
   * concatenated in `order` and then deleted in the order they were given.
   */
  function MergeResult(files: map<string, string>, order: seq<string>, transcriptFiles: seq<string>,
                       finalOutput: string): (MergeOutcome, map<string, string>)
  {
    var gathered := Gather(files, order);
    var written := files[finalOutput := gathered.0];
    if gathered.1.Some? then (MissingFile(gathered.1.value), written)
    else
      var left := RemoveAll(written, transcriptFiles);
      if left.1.Some? then (MissingFile(left.1.value), left.0)
      else (Merged, left.0[finalOutput := Join(Stitch(SplitLines(gathered.0)))])
  }

  // ---------------------------------------------------------------------------
  // The merge itself
  // ---------------------------------------------------------------------------

  /**
   * The merge with the concatenation order given: write the transcripts in `order` to
   * `finalOutput`, delete `transcriptFiles`, then read `finalOutput` back, adjust its
   * timestamps and write it again.
   */
  method MergeInOrder(fs: FileSystem, order: seq<string>, transcriptFiles: seq<string>, finalOutput: string)
    returns (outcome: MergeOutcome)
    requires finalOutput !in order && finalOutput !in transcriptFiles
    modifies fs
    ensures (outcome, fs.files) == MergeResult(old(fs.files), order, transcriptFiles, finalOutput)
  {
    var missing := WriteGathered(fs, order, finalOutput);
    if missing.Some? {
      return MissingFile(missing.value);
    }
    ghost var written := fs.files;
    missing := RemoveListed(fs, transcriptFiles);
    if missing.Some? {
      return MissingFile(missing.value);
    }
    RemoveAllKeeps(written, transcriptFiles, finalOutput);
    var lines := fs.ReadLines(finalOutput);
    assert lines.Some?;
    SplitJoin(lines.value);
    var adjusted := AdjustTranscriptTimestamps(lines.value);
    fs.WriteLines(finalOutput, adjusted);
    return Merged;
  }

  /**
   * The first loop of the merge: open `finalOutput` for writing, then append each
   * transcript of `order` and a newline, stopping at the first that cannot be opened.
   */
  method WriteGathered(fs: FileSystem, order: seq<string>, finalOutput: string) returns (missing: Option<string>)
    requires finalOutput !in order
    modifies fs
    ensures fs.files == old(fs.files)[finalOutput := Gather(old(fs.files), order).0]
    ensures missing == Gather(old(fs.files), order).1
  {
    ghost var files0 := fs.files;
    fs.WriteLines(finalOutput, []);
    var i := 0;
    while i < |order|
      invariant 0 <= i <= |order|
      invariant Gather(files0, order[..i]).1 == None
      invariant fs.files == files0[finalOutput := Gather(files0, order[..i]).0]
    {
      assert order[..i + 1][..i] == order[..i];
      assert order[i] != finalOutput;
      var lines := fs.ReadLines(order[i]);
      if lines.None? {
        GatherSticks(files0, order, i + 1);
        return Some(order[i]);
      }
      ghost var before := Gather(files0, order[..i]).0;
      fs.AppendLines(finalOutput, lines.value + ["\n"]);
      NewlineAppended(lines.value, before);
      i := i + 1;
    }
    assert order[..|order|] == order;
    return None;
  }

  /** Appending the lines and a newline adds the lines' text and a newline. */
  lemma NewlineAppended(lines: seq<string>, before: string)
    ensures before + Join(lines + ["\n"]) == before + Join(lines) + "\n"
  {
    JoinAppend(lines, ["\n"]);
    assert Join(["\n"]) == "\n" + Join([]);
  }

  /** The second loop of the merge: delete each name in turn, stopping at the first that is gone. */
  method RemoveListed(fs: FileSystem, names: seq<string>) returns (missing: Option<string>)
    modifies fs
    ensures (fs.files, missing) == RemoveAll(old(fs.files), names)
  {
    ghost var files0 := fs.files;
    var j := 0;
    while j < |names|
      invariant 0 <= j <= |names|
      invariant RemoveAll(files0, names[..j]) == (fs.files, None)
    {
      assert names[..j + 1][..j] == names[..j];
      ghost var before := fs.files;
      var removed := fs.Remove(names[j]);
      if !removed {
        assert fs.files == before;
        RemoveAllSticks(files0, names, j + 1);
        return Some(names[j]);
      }
      j := j + 1;
    }
    assert names[..|names|] == names;
    return None;
  }

  /** `merge_transcripts` as written: the transcripts are concatenated in `sorted()` order. */
  method MergeTranscripts(fs: FileSystem, transcriptFiles: seq<string>, finalOutput: string)
    returns (outcome: MergeOutcome)
    requires finalOutput !in transcriptFiles
    modifies fs
    ensures (outcome, fs.files)
         == MergeResult(old(fs.files), SortNames(transcriptFiles), transcriptFiles, finalOutput)
  {
    assert finalOutput !in multiset(SortNames(transcriptFiles));
    outcome := MergeInOrder(fs, SortNames(transcriptFiles), transcriptFiles, finalOutput);
  }

  /** The merge with the transcripts concatenated in the order given, which is chunk order. */
  method MergeTranscriptsInChunkOrder(fs: FileSystem, transcriptFiles: seq<string>, finalOutput: string)
    returns (outcome: MergeOutcome)
    requires finalOutput !in transcriptFiles
    modifies fs
    ensures (outcome, fs.files) == MergeResult(old(fs.files), transcriptFiles, transcriptFiles, finalOutput)
  {
    outcome := MergeInOrder(fs, transcriptFiles, transcriptFiles, finalOutput);
  }

  // ---------------------------------------------------------------------------
  // What the phases do
  // ---------------------------------------------------------------------------

  /** Once a transcript is missing, the rest of the list is not read. */
  lemma {:induction false} GatherSticks(files: map<string, string>, order: seq<string>, k: nat)
    requires k <= |order| && Gather(files, order[..k]).1.Some?
    decreases |order| - k
    ensures Gather(files, order) == Gather(files, order[..k])
  {
    if k < |order| {
      assert order[..k + 1][..k] == order[..k];
      GatherSticks(files, order, k + 1);
    } else {
      assert order[..k] == order;
    }
  }

  /** Once a deletion fails, the rest of the list is not deleted. */
  lemma {:induction false} RemoveAllSticks(files: map<string, string>, names: seq<string>, k: nat)
    requires k <= |names| && RemoveAll(files, names[..k]).1.Some?
    decreases |names| - k
    ensures RemoveAll(files, names) == RemoveAll(files, names[..k])
  {
    if k < |names| {
      assert names[..k + 1][..k] == names[..k];
      RemoveAllSticks(files, names, k + 1);
    } else {
      assert names[..k] == names;
    }
  }

  /** Deleting a list of names leaves every other file as it was. */
  lemma {:induction false} RemoveAllKeeps(files: map<string, string>, names: seq<string>, x: string)
    requires x !in names
    ensures x in RemoveAll(files, names).0 <==> x in files
    ensures x in files ==> RemoveAll(files, names).0[x] == files[x]
  {
    if names != [] {
      RemoveAllKeeps(files, names[..|names| - 1], x);
    }
  }

  /** No name occurs twice. */
  predicate Distinct(names: seq<string>)
  {
    forall i, j :: 0 <= i < j < |names| ==> names[i] != names[j]
  }

  /** Every name of the list is a file. */
  predicate Present(files: map<string, string>, names: seq<string>)
  {
    forall i :: 0 <= i < |names| ==> names[i] in files
  }

  /** The same names in another order are present exactly when these are. */
  lemma PresentPermutation(files: map<string, string>, a: seq<string>, b: seq<string>)
    requires multiset(a) == multiset(b)
    ensures Present(files, a) <==> Present(files, b)
  {
    if Present(files, a) {
      forall i | 0 <= i < |b|
        ensures b[i] in files
      {
        assert b[i] in multiset(a);
        var j :| 0 <= j < |a| && a[j] == b[i];
      }
    }
    if Present(files, b) {
      forall i | 0 <= i < |a|
        ensures a[i] in files
      {
        assert a[i] in multiset(b);
        var j :| 0 <= j < |b| && b[j] == a[i];
      }
    }
  }

  /**
   * Deleting a list succeeds exactly when every name exists and none repeats, and then
   * none of them is left and nothing else is gone.
   */
  lemma {:induction false} RemoveAllSucceeds(files: map<string, string>, names: seq<string>)
    ensures RemoveAll(files, names).1 == None <==> Present(files, names) && Distinct(names)
    ensures RemoveAll(files, names).1 == None ==>
      forall n :: n in RemoveAll(files, names).0 <==> n in files && n !in names
  {
    if names != [] {
      var front, name := names[..|names| - 1], names[|names| - 1];
      RemoveAllSucceeds(files, front);
      assert names == front + [name];
      assert forall i :: 0 <= i < |front| ==> front[i] == names[i];
      assert forall n :: n in names <==> n in front || n == name;
      if Distinct(names) {
        assert name !in front;
      }
      if Distinct(front) && name !in front {
        assert Distinct(names);
      }
    }
  }

  /** The first loop completes exactly when every transcript in the order exists. */
  lemma {:induction false} GatherCompletes(files: map<string, string>, order: seq<string>)
    ensures Gather(files, order).1 == None <==> Present(files, order)
  {
    if order != [] {
      var front := order[..|order| - 1];
      GatherCompletes(files, front);
      assert forall i :: 0 <= i < |front| ==> front[i] == order[i];
    }
  }

  /**
   * When transcript `k` is the first that cannot be opened, the first loop stops there
   * and the final transcript holds the transcripts before it.
   */
  lemma GatherStops(files: map<string, string>, order: seq<string>, k: nat)
    requires k < |order| && order[k] !in files && Present(files, order[..k])
    ensures Gather(files, order) == (Gather(files, order[..k]).0, Some(order[k]))
  {
    GatherCompletes(files, order[..k]);
    assert order[..k + 1][..k] == order[..k];
    GatherSticks(files, order, k + 1);
  }

  /** The texts of the transcripts, in order. */
  function Texts(files: map<string, string>, order: seq<string>): (texts: seq<string>)
    requires Present(files, order)
    ensures |texts| == |order| && forall i :: 0 <= i < |order| ==> texts[i] == files[order[i]]
  {
    seq(|order|, i requires 0 <= i < |order| => files[order[i]])
  }

  /** What `readlines` gives for each text once its newline is appended. */
  function Pieces(texts: seq<string>): (pieces: seq<seq<string>>)
    ensures |pieces| == |texts| && forall i :: 0 <= i < |texts| ==> pieces[i] == SplitLines(texts[i] + "\n")
  {
    seq(|texts|, i requires 0 <= i < |texts| => SplitLines(texts[i] + "\n"))
  }

  /** The pieces' lines one after the other. */
  function Concat(pieces: seq<seq<string>>): seq<string>
  {
    if pieces == [] then [] else Concat(pieces[..|pieces| - 1]) + pieces[|pieces| - 1]
  }

  /** The lines the stitcher reads back: each text's lines, read after appending its newline, in turn. */
  function ChunkLines(texts: seq<string>): seq<string>
  {
    Concat(Pieces(texts))
  }

  /** The gathered text is empty or ends a line, so it reads back as the transcripts' lines in turn. */
  lemma {:induction false} GatherLines(files: map<string, string>, order: seq<string>)
    requires Present(files, order)
    ensures Gather(files, order).1 == None
    ensures var t := Gather(files, order).0; t == [] || t[|t| - 1] == '\n'
    ensures SplitLines(Gather(files, order).0) == ChunkLines(Texts(files, order))
  {
    if order != [] {
      var front, name := order[..|order| - 1], order[|order| - 1];
      GatherLines(files, front);
      var t, c := Gather(files, front).0, files[name];
      assert t + c + "\n" == t + (c + "\n");
      SplitLinesAppend(t, c + "\n");
      var p := Pieces(Texts(files, order));
      assert p[..|p| - 1] == Pieces(Texts(files, front));
    }
  }

  /** `readlines` on a lone newline gives one blank line. */
  lemma NewlineLine()
    ensures SplitLines("\n") == ["\n"]
  {
    var nl := "\n";
    assert LineEnd(nl) == 1;
    assert nl[..1] == nl && nl[1..] == [];
  }

  /** A transcript that ends its last line is followed by a blank line. */
  lemma BlankLineAfter(text: string)
    requires text == [] || text[|text| - 1] == '\n'
    ensures SplitLines(text + "\n") == SplitLines(text) + ["\n"]
  {
    SplitLinesAppend(text, "\n");
    NewlineLine();
  }

  /** The lines of a concatenation are those of its parts, in turn. */
  lemma {:induction false} ConcatAppend(a: seq<seq<string>>, b: seq<seq<string>>)
    decreases |b|
    ensures Concat(a + b) == Concat(a) + Concat(b)
  {
    if b == [] {
      assert a + b == a;
    } else {
      var front := b[..|b| - 1];
      ConcatAppend(a, front);
      assert (a + b)[..|a + b| - 1] == a + front;
    }
  }

  /** In the merged lines, text `k` comes after every earlier one and before every later one. */
  lemma ChunkLinesInOrder(texts: seq<string>, k: nat)
    requires k < |texts|
    ensures ChunkLines(texts)
         == ChunkLines(texts[..k]) + SplitLines(texts[k] + "\n") + ChunkLines(texts[k + 1..])
  {
    var p := Pieces(texts);
    var head, tail := p[..k + 1], p[k + 1..];
    assert p == head + tail;
    ConcatAppend(head, tail);
    assert head[..k] == Pieces(texts[..k]);
    assert tail == Pieces(texts[k + 1..]);
  }

  // ---------------------------------------------------------------------------
  // What the merge does
  // ---------------------------------------------------------------------------

  /**
   * A merge completes exactly when every chunk transcript exists and none is listed
   * twice (a repeated name is read twice but cannot be deleted twice).
   */
  lemma MergeSucceeds(files: map<string, string>, order: seq<string>, transcriptFiles: seq<string>, finalOutput: string)
    requires finalOutput !in transcriptFiles && multiset(order) == multiset(transcriptFiles)
    ensures MergeResult(files, order, transcriptFiles, finalOutput).0 == Merged
        <==> Present(files, transcriptFiles) && Distinct(transcriptFiles)
  {
    PresentPermutation(files, order, transcriptFiles);
    GatherCompletes(files, order);
    var written := files[finalOutput := Gather(files, order).0];
    RemoveAllSucceeds(written, transcriptFiles);
    assert Present(written, transcriptFiles) <==> Present(files, transcriptFiles) by {
      assert forall i :: 0 <= i < |transcriptFiles| ==> transcriptFiles[i] != finalOutput;
    }
  }

  /**
   * After a completed merge every chunk transcript is gone, every other file is as it
   * was, and the final transcript holds the stitched lines of the transcripts in the
   * concatenation order.
   */
  lemma MergedState(files: map<string, string>, order: seq<string>, transcriptFiles: seq<string>, finalOutput: string)
    requires finalOutput !in transcriptFiles && multiset(order) == multiset(transcriptFiles)
    requires Present(files, transcriptFiles) && Distinct(transcriptFiles)
    ensures Present(files, order)
    ensures MergeResult(files, order, transcriptFiles, finalOutput).0 == Merged
    ensures var after := MergeResult(files, order, transcriptFiles, finalOutput).1;
      (forall n :: n in transcriptFiles ==> n !in after) &&
      (forall n :: n !in transcriptFiles && n != finalOutput ==>
         (n in after <==> n in files) && (n in files ==> after[n] == files[n])) &&
      finalOutput in after && after[finalOutput] == Join(Stitch(ChunkLines(Texts(files, order))))
  {
    PresentPermutation(files, order, transcriptFiles);
    MergeSucceeds(files, order, transcriptFiles, finalOutput);
    GatherLines(files, order);
    var written := files[finalOutput := Gather(files, order).0];
    assert Present(written, transcriptFiles);
    RemoveAllSucceeds(written, transcriptFiles);
    forall n | n !in transcriptFiles && n != finalOutput && n in files
      ensures RemoveAll(written, transcriptFiles).0[n] == files[n]
    {
      RemoveAllKeeps(written, transcriptFiles, n);
    }
  }

  /**
   * A merge that stops at a transcript that cannot be opened leaves the final transcript
   * holding the transcripts before it and deletes nothing.
   */
  lemma MergeStopsAtMissing(files: map<string, string>, order: seq<string>, transcriptFiles: seq<string>,
                            finalOutput: string, k: nat)
    requires k < |order| && order[k] !in files && Present(files, order[..k])
    ensures MergeResult(files, order, transcriptFiles, finalOutput)
         == (MissingFile(order[k]), files[finalOutput := Gather(files, order[..k]).0])
  {
    GatherStops(files, order, k);
  }

  /**
   * Merging in the order the transcripts are listed, which is chunk order: the final
   * transcript is the stitched lines of every earlier chunk, then chunk `k`'s, then
   * every later chunk's.
   */
  lemma ChunkOrderMerge(files: map<string, string>, transcriptFiles: seq<string>, finalOutput: string, k: nat)
    requires finalOutput !in transcriptFiles && Present(files, transcriptFiles) && Distinct(transcriptFiles)
    requires k < |transcriptFiles|
    ensures Present(files, transcriptFiles[..k]) && Present(files, transcriptFiles[k + 1..])
    ensures var r := MergeResult(files, transcriptFiles, transcriptFiles, finalOutput);
      r.0 == Merged && finalOutput in r.1 &&
      r.1[finalOutput] == Join(Stitch(ChunkLines(Texts(files, transcriptFiles[..k]))
                                      + SplitLines(files[transcriptFiles[k]] + "\n")
                                      + ChunkLines(Texts(files, transcriptFiles[k + 1..]))))
  {
    MergedState(files, transcriptFiles, transcriptFiles, finalOutput);
    var texts := Texts(files, transcriptFiles);
    TextsAround(files, transcriptFiles, k);
    ChunkLinesInOrder(texts, k);
  }

  /** The texts before and after position `k` are those of the names before and after it. */
  lemma TextsAround(files: map<string, string>, order: seq<string>, k: nat)
    requires Present(files, order) && k < |order|
    ensures Present(files, order[..k]) && Present(files, order[k + 1..])
    ensures Texts(files, order)[..k] == Texts(files, order[..k])
    ensures Texts(files, order)[k] == files[order[k]]
    ensures Texts(files, order)[k + 1..] == Texts(files, order[k + 1..])
  {
    var after := order[k + 1..];
    assert forall i :: 0 <= i < |after| ==> after[i] == order[k + 1 + i];
  }
}
