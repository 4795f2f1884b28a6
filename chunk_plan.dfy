/**
 * How `split_audio` cuts a long recording into thirty-minute pieces and names them, and
 * how the transcript file names that follow from those names sort.
 */
module ChunkPlan {
  import opened Timestamp
  import opened NameOrder

  /** CHUNK_DURATION: thirty minutes, in seconds. */
  const ChunkDuration: nat := 1800

  // ---------------------------------------------------------------------------
  // File names
  // ---------------------------------------------------------------------------

  /** `s.rfind(c)`: the index of the last `c` in `s`, or -1 when there is none. */
  function LastIndex(s: string, c: char): (k: int)
    ensures -1 <= k < |s|
    ensures k >= 0 ==> s[k] == c
    ensures forall j :: k < j < |s| ==> s[j] != c
  {
    if s == [] then -1
    else if s[|s| - 1] == c then |s| - 1
    else LastIndex(s[..|s| - 1], c)
  }

  /**
   * `os.path.splitext(path)[0]` on POSIX: the path without the extension of its base
   * name. The extension starts at the last dot after the last slash, provided some
   * character other than a dot comes before it in the base name.
   */
  function StripExtension(path: string): (root: string)
    ensures root <= path
    ensures root != path ==> path[|root|] == '.'
    ensures forall j :: |root| <= j < |path| ==> path[j] != '/'
    ensures forall j :: |root| < j < |path| ==> path[j] != '.'
  {
    var sep := LastIndex(path, '/');
    var dot := LastIndex(path, '.');
    if dot > sep && exists j :: sep < j < dot && path[j] != '.' then path[..dot] else path
  }

  /** `root + stem + "." + ext` loses exactly `"." + ext` when neither part holds a dot or a slash. */
  lemma StripKnownExtension(root: string, stem: string, ext: string)
    requires stem != [] && forall j :: 0 <= j < |stem| ==> stem[j] != '.' && stem[j] != '/'
    requires forall j :: 0 <= j < |ext| ==> ext[j] != '.' && ext[j] != '/'
    ensures StripExtension(root + stem + ['.'] + ext) == root + stem
  {
    var path := root + stem + ['.'] + ext;
    var p := |root| + |stem|;
    assert path[p] == '.';
    assert forall j :: p < j < |path| ==> path[j] == ext[j - p - 1];
    assert forall j :: |root| <= j < p ==> path[j] == stem[j - |root|];
    assert LastIndex(path, '.') == p;
    assert LastIndex(path, '/') < |root|;
    assert path[p - 1] != '.';
    assert path[..p] == root + stem;
  }

  /** The audio file of chunk `i`, counted from 0: `{base}_part{i+1}_16khz.wav`. */
  function PartName(inputWav: string, i: nat): string
  {
    StripExtension(inputWav) + "_part" + Decimal(i + 1, 0) + "_16khz.wav"
  }

  /** The transcript an audio file gets: its path without extension, plus `_transcription.txt`. */
  function TranscriptName(wav: string): string
  {
    StripExtension(wav) + "_transcription.txt"
  }

  /** The transcript files, one per audio file and in the same order, that reach the merge. */
  function TranscriptList(wavFiles: seq<string>): (ts: seq<string>)
    ensures |ts| == |wavFiles|
    ensures forall i :: 0 <= i < |ts| ==> ts[i] == TranscriptName(wavFiles[i])
  {
    if wavFiles == [] then []
    else TranscriptList(wavFiles[..|wavFiles| - 1]) + [TranscriptName(wavFiles[|wavFiles| - 1])]
  }

  /** The converted recording a source file gets: its path without extension, plus `_16khz.wav`. */
  function ConvertedName(filePath: string): string
  {
    StripExtension(filePath) + "_16khz.wav"
  }

  /** The chunk's own number is the only part of its name that varies, so no two chunks share a name. */
  lemma PartNamesDistinct(inputWav: string, i: nat, j: nat)
    requires i != j
    ensures PartName(inputWav, i) != PartName(inputWav, j)
  {
    var p := StripExtension(inputWav) + "_part";
    var di, dj := Decimal(i + 1, 0), Decimal(j + 1, 0);
    var s := "_16khz.wav";
    var ni, nj := PartName(inputWav, i), PartName(inputWav, j);
    assert ni == p + di + s && nj == p + dj + s;
    if |di| != |dj| {
      assert |ni| != |nj|;
    } else {
      assert di != dj;
      var k :| 0 <= k < |di| && di[k] != dj[k];
      assert ni[|p| + k] == di[k] && nj[|p| + k] == dj[k];
    }
  }

  /** The transcript of a file whose extension is known replaces just that extension. */
  lemma TranscriptOfExtension(root: string, stem: string, ext: string)
    requires stem != [] && forall j :: 0 <= j < |stem| ==> stem[j] != '.' && stem[j] != '/'
    requires forall j :: 0 <= j < |ext| ==> ext[j] != '.' && ext[j] != '/'
    ensures TranscriptName(root + stem + ['.'] + ext) == root + (stem + "_transcription.txt")
  {
    StripKnownExtension(root, stem, ext);
  }

  /** A chunk's transcript keeps the chunk's own stem: `{base}_part{i+1}_16khz_transcription.txt`. */
  lemma TranscriptOfPart(inputWav: string, i: nat)
    ensures TranscriptName(PartName(inputWav, i))
         == (StripExtension(inputWav) + "_part") + (Decimal(i + 1, 0) + PartTranscriptSuffix)
  {
    var q := StripExtension(inputWav) + "_part";
    var d := Decimal(i + 1, 0);
    PartNameShape(inputWav, i);
    TranscriptOfExtension(q + d, "_16khz", "wav");
    SuffixJoin();
    AppendAssociative(q, d, PartTranscriptSuffix);
  }

  lemma PartNameShape(inputWav: string, i: nat)
    ensures PartName(inputWav, i)
         == (StripExtension(inputWav) + "_part" + Decimal(i + 1, 0)) + "_16khz" + ['.'] + "wav"
  {
    assert "_16khz.wav" == "_16khz" + ['.'] + "wav";
  }

  lemma SuffixJoin()
    ensures "_16khz" + "_transcription.txt" == PartTranscriptSuffix
  {
  }

  lemma AppendAssociative<T>(a: seq<T>, b: seq<T>, c: seq<T>)
    ensures (a + b) + c == a + (b + c)
  {
  }

  /** What follows the chunk number in a chunk transcript's name. */
  const PartTranscriptSuffix := "_16khz_transcription.txt"

  // ---------------------------------------------------------------------------
  // The split commands
  // ---------------------------------------------------------------------------

  /** One ffmpeg split command: copy `length` seconds from `start` (its `-ss` and `-t`). */
  datatype Cut = Cut(start: nat, length: nat)

  /** Where the piece a cut produces ends: ffmpeg stops early at the end of the recording. */
  function PieceEnd(c: Cut, duration: int): int
  {
    if c.start + c.length < duration then c.start + c.length else duration
  }

  /** The number of values in `range(0, duration, CHUNK_DURATION)`: ceil(duration / 1800). */
  function RangeCount(duration: int): (n: nat)
    ensures duration <= 0 ==> n == 0
    ensures duration > 0 ==> n * ChunkDuration >= duration && (n - 1) * ChunkDuration < duration
  {
    if duration <= 0 then 0 else (duration + ChunkDuration - 1) / ChunkDuration
  }

  /** A count that fits the ceiling's two bounds is the ceiling. */
  lemma RangeCountUnique(duration: int, n: nat)
    requires duration > 0 && n * ChunkDuration >= duration && (n - 1) * ChunkDuration < duration
    ensures n == RangeCount(duration)
  {
    var m := RangeCount(duration);
    assert n * ChunkDuration > (m - 1) * ChunkDuration;
    assert m * ChunkDuration > (n - 1) * ChunkDuration;
  }

  /** The cuts `split_audio` issues: one per start in the range, each `CHUNK_DURATION` long. */
  predicate IsPlan(duration: int, cuts: seq<Cut>)
  {
    |cuts| == RangeCount(duration) &&
    forall i :: 0 <= i < |cuts| ==> cuts[i] == Cut(i * ChunkDuration, ChunkDuration)
  }

  /**
   * `split_audio` without its ffmpeg calls: the audio file names it returns and the cuts
   * it asks ffmpeg for. A recording of at most one chunk (including a duration of 0,
   * which the duration probe reports on failure) is returned as it is.
   */
  method SplitAudio(inputWav: string, duration: int) returns (outputFiles: seq<string>, cuts: seq<Cut>)
    ensures duration <= ChunkDuration ==> outputFiles == [inputWav] && cuts == []
    ensures duration > ChunkDuration ==> IsPlan(duration, cuts) && |outputFiles| == |cuts|
    ensures duration > ChunkDuration ==>
      forall i :: 0 <= i < |outputFiles| ==> outputFiles[i] == PartName(inputWav, i)
  {
    if duration <= ChunkDuration {
      return [inputWav], [];
    }
    outputFiles, cuts := [], [];
    var baseName := StripExtension(inputWav);
    var i: nat, startTime: nat := 0, 0;
    while startTime < duration
      invariant startTime == i * ChunkDuration
      invariant i == 0 || (i - 1) * ChunkDuration < duration
      invariant |cuts| == |outputFiles| == i
      invariant forall k :: 0 <= k < i ==> cuts[k] == Cut(k * ChunkDuration, ChunkDuration)
      invariant forall k :: 0 <= k < i ==> outputFiles[k] == PartName(inputWav, k)
      decreases duration - startTime
    {
      var chunkFile := baseName + "_part" + Decimal(i + 1, 0) + "_16khz.wav";
      outputFiles := outputFiles + [chunkFile];
      cuts := cuts + [Cut(startTime, ChunkDuration)];
      i, startTime := i + 1, startTime + ChunkDuration;
    }
    RangeCountUnique(duration, i);
  }

  /** The pieces follow one another with no gap and no overlap, from 0 to the end of the recording. */
  predicate Contiguous(duration: int, cuts: seq<Cut>)
  {
    |cuts| > 0 && cuts[0].start == 0 &&
    (forall i :: 0 <= i < |cuts| ==> cuts[i].start < PieceEnd(cuts[i], duration)) &&
    (forall i :: 0 <= i < |cuts| - 1 ==> PieceEnd(cuts[i], duration) == cuts[i + 1].start) &&
    PieceEnd(cuts[|cuts| - 1], duration) == duration
  }

  /** The total length of the pieces. */
  function PiecesLength(cuts: seq<Cut>, duration: int): int
  {
    if cuts == [] then 0
    else (PiecesLength(cuts[..|cuts| - 1], duration)
          + (PieceEnd(cuts[|cuts| - 1], duration) - cuts[|cuts| - 1].start))
  }

  /** The pieces of a split recording tile it from its start to its end. */
  lemma PlanContiguous(duration: int, cuts: seq<Cut>)
    requires duration > ChunkDuration && IsPlan(duration, cuts)
    ensures Contiguous(duration, cuts)
  {
    var n := |cuts|;
    forall i | 0 <= i < n - 1
      ensures PieceEnd(cuts[i], duration) == cuts[i + 1].start
    {
      assert (i + 1) * ChunkDuration <= (n - 1) * ChunkDuration;
    }
  }

  /** Lengths of back-to-back pieces add up to the distance from the first start to the last end. */
  lemma {:induction false} PiecesTelescope(duration: int, cuts: seq<Cut>)
    requires cuts != []
    requires forall i :: 0 <= i < |cuts| - 1 ==> PieceEnd(cuts[i], duration) == cuts[i + 1].start
    ensures PiecesLength(cuts, duration) == PieceEnd(cuts[|cuts| - 1], duration) - cuts[0].start
  {
    if |cuts| > 1 {
      var front := cuts[..|cuts| - 1];
      assert forall i :: 0 <= i < |front| ==> front[i] == cuts[i];
      PiecesTelescope(duration, front);
    }
  }

  /** The pieces of a split recording add up to its whole duration. */
  lemma PlanLength(duration: int, cuts: seq<Cut>)
    requires duration > ChunkDuration && IsPlan(duration, cuts)
    ensures PiecesLength(cuts, duration) == duration
  {
    PlanContiguous(duration, cuts);
    PiecesTelescope(duration, cuts);
  }

  /** Second `t` of the recording lies in piece `i` exactly when `i` is `t` divided by 1800. */
  lemma PlanPartition(duration: int, cuts: seq<Cut>, t: int, i: nat)
    requires duration > ChunkDuration && IsPlan(duration, cuts)
    requires 0 <= t < duration && i < |cuts|
    ensures cuts[i].start <= t < PieceEnd(cuts[i], duration) <==> i == t / ChunkDuration
  {
    var q := t / ChunkDuration;
    if cuts[i].start <= t < PieceEnd(cuts[i], duration) {
      DivModUnique(t, ChunkDuration, i, t - i * ChunkDuration);
    }
    if i == q {
      assert q * ChunkDuration <= t < q * ChunkDuration + ChunkDuration;
    }
  }

  // ---------------------------------------------------------------------------
  // Order of the chunk transcripts
  // ---------------------------------------------------------------------------

  /** A chunk number below 10 is a single digit. */
  lemma SmallNumberDigit(k: nat)
    requires 1 <= k < 10
    ensures Decimal(k, 0) == [DigitChar(k)]
  {
  }

  /** Names that share a prefix and a suffix are ordered by the first characters of their middles. */
  lemma MiddleDecides(q: string, a: string, b: string, s: string)
    requires a != [] && b != [] && a[0] < b[0]
    ensures LexLess(q + (a + s), q + (b + s))
  {
    assert (a + s)[0] == a[0] && (b + s)[0] == b[0];
    assert LexLess(a + s, b + s);
    LexLessCommonPrefix(q, a + s, b + s);
  }

  /**
   * The transcripts of a split into at most nine chunks are already in Python's string
   * order, so sorting them keeps chunk order.
   */
  lemma ShortSplitSortsInChunkOrder(inputWav: string, wavFiles: seq<string>)
    requires |wavFiles| <= 9
    requires forall i :: 0 <= i < |wavFiles| ==> wavFiles[i] == PartName(inputWav, i)
    ensures SortNames(TranscriptList(wavFiles)) == TranscriptList(wavFiles)
  {
    var ts := TranscriptList(wavFiles);
    forall i, j | 0 <= i < j < |ts|
      ensures LexLessEq(ts[i], ts[j])
    {
      assert ts[i] == TranscriptName(PartName(inputWav, i));
      assert ts[j] == TranscriptName(PartName(inputWav, j));
      SmallPartsOrdered(inputWav, i, j);
    }
    SortOfSorted(ts);
  }

  /** Below ten, chunk transcripts sort by chunk number. */
  lemma SmallPartsOrdered(inputWav: string, i: nat, j: nat)
    requires i < j < 9
    ensures LexLess(TranscriptName(PartName(inputWav, i)), TranscriptName(PartName(inputWav, j)))
  {
    var q := StripExtension(inputWav) + "_part";
    TranscriptOfPart(inputWav, i);
    TranscriptOfPart(inputWav, j);
    SmallNumberDigit(i + 1);
    SmallNumberDigit(j + 1);
    MiddleDecides(q, Decimal(i + 1, 0), Decimal(j + 1, 0), PartTranscriptSuffix);
  }

  lemma TenAndTwo()
    ensures Decimal(10, 0) == ['1', '0'] && Decimal(2, 0) == ['2']
  {
    assert Decimal(10, 0) == Decimal(1, 0) + [DigitChar(0)];
  }

  /** The transcript of chunk 10 sorts before that of chunk 2. */
  lemma TenthBeforeSecond(inputWav: string)
    ensures LexLess(TranscriptName(PartName(inputWav, 9)), TranscriptName(PartName(inputWav, 1)))
  {
    var q := StripExtension(inputWav) + "_part";
    TranscriptOfPart(inputWav, 9);
    TranscriptOfPart(inputWav, 1);
    TenAndTwo();
    MiddleDecides(q, Decimal(10, 0), Decimal(2, 0), PartTranscriptSuffix);
  }

  /**
   * The transcript of chunk 10 sorts before that of chunk 1: after the shared
   * `_part1`, chunk 10 has `'0'` where chunk 1 has the suffix's `'_'`, which is higher.
   */
  lemma TenthBeforeFirst(inputWav: string)
    ensures LexLess(TranscriptName(PartName(inputWav, 9)), TranscriptName(PartName(inputWav, 0)))
  {
    TenthName(inputWav);
    FirstName(inputWav);
    SuffixStart();
    ExtraZeroFirst(StripExtension(inputWav) + "_part", PartTranscriptSuffix);
  }

  lemma TenthName(inputWav: string)
    ensures TranscriptName(PartName(inputWav, 9))
         == (StripExtension(inputWav) + "_part") + (['1', '0'] + PartTranscriptSuffix)
  {
    TranscriptOfPart(inputWav, 9);
    TenAndTwo();
  }

  lemma FirstName(inputWav: string)
    ensures TranscriptName(PartName(inputWav, 0))
         == (StripExtension(inputWav) + "_part") + (['1'] + PartTranscriptSuffix)
  {
    OneDigit();
    TranscriptOfPart(inputWav, 0);
  }

  lemma OneDigit()
    ensures Decimal(1, 0) == ['1']
  {
    assert DigitChar(1) == '1';
  }

  lemma SuffixStart()
    ensures |PartTranscriptSuffix| > 0 && PartTranscriptSuffix[0] == '_'
  {
  }

  /** `1` then `0` sorts before `1` alone when what follows is above `'0'`. */
  lemma ExtraZeroFirst(q: string, s: string)
    requires s != [] && '0' < s[0]
    ensures LexLess(q + (['1', '0'] + s), q + (['1'] + s))
  {
    var p := q + ['1'];
    MiddleDecides(p, ['0'] + s, s, []);
    assert q + (['1', '0'] + s) == p + ((['0'] + s) + []);
    assert q + (['1'] + s) == p + (s + []);
  }

  /**
   * With ten chunks or more, `sorted()` puts the transcript of chunk 10 before that of
   * chunk 1, the first chunk.
   */
  lemma LongSplitPutsTenthBeforeFirst(inputWav: string, wavFiles: seq<string>)
    requires |wavFiles| >= 10
    requires forall i :: 0 <= i < |wavFiles| ==> wavFiles[i] == PartName(inputWav, i)
    ensures var ts := TranscriptList(wavFiles); var sorted := SortNames(ts);
      ts[9] in sorted && ts[0] in sorted &&
      forall i, j :: 0 <= i < |sorted| && 0 <= j < |sorted| && sorted[i] == ts[9] && sorted[j] == ts[0] ==> i < j
  {
    LongSplitInversionFirst(inputWav, wavFiles);
    InvertedPair(TranscriptList(wavFiles), 0, 9);
  }

  lemma LongSplitInversionFirst(inputWav: string, wavFiles: seq<string>)
    requires |wavFiles| >= 10
    requires forall i :: 0 <= i < |wavFiles| ==> wavFiles[i] == PartName(inputWav, i)
    ensures LexLess(TranscriptList(wavFiles)[9], TranscriptList(wavFiles)[0])
  {
    var ts := TranscriptList(wavFiles);
    assert ts[9] == TranscriptName(PartName(inputWav, 9));
    assert ts[0] == TranscriptName(PartName(inputWav, 0));
    TenthBeforeFirst(inputWav);
  }

  /**
   * With ten chunks or more, `sorted()` puts the transcript of chunk 10 before that of
   * chunk 2, so the sorted list is not in chunk order.
   */
  lemma LongSplitSortsOutOfChunkOrder(inputWav: string, wavFiles: seq<string>)
    requires |wavFiles| >= 10
    requires forall i :: 0 <= i < |wavFiles| ==> wavFiles[i] == PartName(inputWav, i)
    ensures LexLess(TranscriptList(wavFiles)[9], TranscriptList(wavFiles)[1])
    ensures SortNames(TranscriptList(wavFiles)) != TranscriptList(wavFiles)
    ensures var ts := TranscriptList(wavFiles); var sorted := SortNames(ts);
      ts[9] in sorted && ts[1] in sorted &&
      forall i, j :: 0 <= i < |sorted| && 0 <= j < |sorted| && sorted[i] == ts[9] && sorted[j] == ts[1] ==> i < j
  {
    LongSplitInversion(inputWav, wavFiles);
    TenthBeforeSecondSorted(wavFiles);
  }

  lemma TenthBeforeSecondSorted(wavFiles: seq<string>)
    requires |wavFiles| >= 10 && LexLess(TranscriptList(wavFiles)[9], TranscriptList(wavFiles)[1])
    ensures SortNames(TranscriptList(wavFiles)) != TranscriptList(wavFiles)
    ensures var ts := TranscriptList(wavFiles); var sorted := SortNames(ts);
      ts[9] in sorted && ts[1] in sorted &&
      forall i, j :: 0 <= i < |sorted| && 0 <= j < |sorted| && sorted[i] == ts[9] && sorted[j] == ts[1] ==> i < j
  {
    InvertedPair(TranscriptList(wavFiles), 1, 9);
  }

  /** In a split of ten chunks or more, chunk 10's transcript is less than chunk 2's. */
  lemma LongSplitInversion(inputWav: string, wavFiles: seq<string>)
    requires |wavFiles| >= 10
    requires forall i :: 0 <= i < |wavFiles| ==> wavFiles[i] == PartName(inputWav, i)
    ensures LexLess(TranscriptList(wavFiles)[9], TranscriptList(wavFiles)[1])
  {
    var ts := TranscriptList(wavFiles);
    assert ts[9] == TranscriptName(PartName(inputWav, 9));
    assert ts[1] == TranscriptName(PartName(inputWav, 1));
    TenthBeforeSecond(inputWav);
  }

  /**
   * A list with a later name strictly less than an earlier one is not what sorting
   * returns: sorting moves the later name in front of the earlier one.
   */
  lemma InvertedPair(ts: seq<string>, i: nat, j: nat)
    requires i < j < |ts| && LexLess(ts[j], ts[i])
    ensures SortNames(ts) != ts
    ensures var sorted := SortNames(ts);
      ts[j] in sorted && ts[i] in sorted &&
      forall a, b :: 0 <= a < |sorted| && 0 <= b < |sorted| && sorted[a] == ts[j] && sorted[b] == ts[i] ==> a < b
  {
    NotSortedWhenInverted(ts, i, j);
    SortPlacesBefore(ts, j, i);
  }

  /** A list with a later name strictly before an earlier one is not what sorting returns. */
  lemma NotSortedWhenInverted(ts: seq<string>, i: nat, j: nat)
    requires i < j < |ts| && LexLess(ts[j], ts[i])
    ensures SortNames(ts) != ts
  {
    LexLessAsymmetric(ts[i], ts[j]);
    LexLessIrreflexive(ts[i]);
    assert !LexLessEq(ts[i], ts[j]);
  }

  /** Ten chunks or more means a recording longer than 16200 seconds, four and a half hours. */
  lemma TenChunksPastNineHalfHours(duration: int)
    ensures RangeCount(duration) >= 10 <==> duration > 9 * ChunkDuration
  {
  }

  /** The converted recording's name loses only its `.wav` again. */
  lemma ConvertedShape(filePath: string)
    ensures StripExtension(ConvertedName(filePath)) == StripExtension(filePath) + "_16khz"
  {
    var r := StripExtension(filePath);
    assert ConvertedName(filePath) == r + "_16khz" + ['.'] + "wav" by {
      assert "_16khz.wav" == "_16khz" + ['.'] + "wav";
    }
    StripKnownExtension(r, "_16khz", "wav");
  }

  /** A character of a prefix is a character of the whole. */
  lemma PrefixChar(p: string, t: string, k: nat)
    requires p <= t && k < |p|
    ensures t[k] == p[k]
  {
  }

  /** A chunk transcript of the converted recording differs from the final transcript. */
  lemma PartTranscriptNotFinal(filePath: string, k: nat)
    ensures TranscriptName(PartName(ConvertedName(filePath), k)) != TranscriptName(filePath)
  {
    var r := StripExtension(filePath);
    var stem := r + "_16khz";
    var t := TranscriptName(PartName(ConvertedName(filePath), k));
    TranscriptOfPart(ConvertedName(filePath), k);
    ConvertedShape(filePath);
    assert stem <= t;
    FinalNameChar(filePath);
    StemChar(r);
    PrefixChar(stem, t, |r| + 1);
  }

  /** The transcript of the unsplit converted recording differs from the final transcript. */
  lemma SingleTranscriptNotFinal(filePath: string)
    ensures TranscriptName(ConvertedName(filePath)) != TranscriptName(filePath)
  {
    var r := StripExtension(filePath);
    var stem := r + "_16khz";
    var t := TranscriptName(ConvertedName(filePath));
    ConvertedShape(filePath);
    assert stem <= t;
    FinalNameChar(filePath);
    StemChar(r);
    PrefixChar(stem, t, |r| + 1);
  }

  lemma FinalNameChar(filePath: string)
    ensures var r := StripExtension(filePath); |TranscriptName(filePath)| > |r| + 1 && TranscriptName(filePath)[|r| + 1] == 't'
  {
    var r := StripExtension(filePath);
    assert "_transcription.txt"[1] == 't';
    PrefixChar(r + "_transcription.txt", TranscriptName(filePath), |r| + 1);
  }

  lemma StemChar(r: string)
    ensures (r + "_16khz")[|r| + 1] == '1'
  {
    assert "_16khz"[1] == '1';
  }

  /**
   * The final transcript is never one of the chunk transcripts: the converted recording's
   * names all carry `_16khz` right after the source path's own stem.
   */
  lemma FinalTranscriptNotAChunk(filePath: string, duration: int, wavFiles: seq<string>)
    requires duration <= ChunkDuration ==> wavFiles == [ConvertedName(filePath)]
    requires duration > ChunkDuration ==>
      forall i :: 0 <= i < |wavFiles| ==> wavFiles[i] == PartName(ConvertedName(filePath), i)
    ensures TranscriptName(filePath) !in TranscriptList(wavFiles)
  {
    forall k | 0 <= k < |wavFiles|
      ensures TranscriptList(wavFiles)[k] != TranscriptName(filePath)
    {
      if duration > ChunkDuration {
        PartTranscriptNotFinal(filePath, k);
      } else {
        SingleTranscriptNotFinal(filePath);
      }
    }
  }
}
