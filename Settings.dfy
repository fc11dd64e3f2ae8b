/**
 * The settings file `<video name>_trialTimes.csv` that an export writes beside
 * its clips and that "Load Param" reads back. It has the columns Trial, Start,
 * End, cropX, cropY, cropWidth, cropHeight and Video: one line per trial with
 * only the first three filled, then one line with only the crop and the video
 * path filled. A cell is `None` where the file has nothing (pandas reads it as
 * NaN), and an empty string is written as nothing.
 */
module Settings {
  import opened Common
  import opened Text
  import opened Crop
  import opened TrialTable

  datatype Line = Line(trial: Option<string>, start: Option<string>, end: Option<string>,
                       cropX: Option<int>, cropY: Option<int>, cropWidth: Option<int>, cropHeight: Option<int>,
                       video: Option<string>)

  /** The strings `read_csv` reads as NaN by default (pandas' `na_values`), the empty cell among them. */
  const NaValues: set<string> := {"", "#N/A", "#N/A N/A", "#NA", "-1.#IND", "-1.#QNAN", "-NaN", "-nan",
                                  "1.#IND", "1.#QNAN", "<NA>", "N/A", "NA", "NULL", "NaN", "None", "n/a",
                                  "nan", "null"}

  /** A text cell after `to_csv` and `read_csv`: an empty cell and pandas' NA strings come back as NaN. */
  function TextCell(s: string): (c: Option<string>)
    ensures c.Some? <==> s !in NaValues
    ensures c.Some? ==> c.value == s
  {
    if s in NaValues then None else Some(s)
  }

  /** A number as the table prints it is never one of pandas' NA strings. */
  lemma {:induction false} CanonicalNotNa(s: string)
    requires Canonical(s)
    ensures s !in NaValues && TextCell(s) == Some(s)
  {
    assert |s| > 0 && AllDigits(s);
    DigitAt(s, 0);
    if |s| > 1 {
      DigitAt(s, 1);
    }
    DigitsNotNa(s);
  }

  /** Every NA string is empty or has a non-digit among its first two characters. */
  lemma {:induction false} DigitsNotNa(s: string)
    requires |s| > 0 && IsDigit(s[0]) && (|s| > 1 ==> IsDigit(s[1]))
    ensures s !in NaValues
  {
  }

  /** Both times of a row survive `to_csv` and `read_csv` as text. */
  predicate TimesNotNa(r: Row)
  {
    r.start !in NaValues && r.end !in NaValues
  }

  function TrialLine(r: Row): Line
  {
    Line(TextCell(r.trial), TextCell(r.start), TextCell(r.end), None, None, None, None, None)
  }

  /** The last line; crop fields that were never set (`None` in the window) leave the crop cells empty. */
  function CropLine(crop: Option<BBox>, video: string): Line
  {
    match crop
    case Some(b) => Line(None, None, None, Some(b.x), Some(b.y), Some(b.w), Some(b.h), TextCell(video))
    case None => Line(None, None, None, None, None, None, None, TextCell(video))
  }

  /** What `split_video` writes: the trial lines, then the crop line. */
  function SettingsLines(rows: seq<Row>, crop: Option<BBox>, video: string): (f: seq<Line>)
    ensures |f| == |rows| + 1
    ensures forall k :: 0 <= k < |rows| ==> f[k] == TrialLine(rows[k])
    ensures f[|rows|] == CropLine(crop, video)
  {
    seq(|rows|, k requires 0 <= k < |rows| => TrialLine(rows[k])) + [CropLine(crop, video)]
  }

  /** Where `split_video` writes the file: the chosen folder, named after the video. */
  function SettingsPath(folder: string, videoName: string): string
  {
    Join(folder, videoName + "_trialTimes.csv")
  }

  /** The file lands in the chosen folder under the video's name. */
  lemma {:induction false} SettingsFileName(folder: string, videoName: string)
    requires '/' !in videoName
    ensures BaseName(SettingsPath(folder, videoName)) == videoName + "_trialTimes.csv"
  {
    assert '/' !in "_trialTimes.csv";
    JoinBaseName(folder, videoName + "_trialTimes.csv");
  }

  // ---------------------------------------------------------------- reading back

  /** The crop columns of the last line, as `update_from_bbox` takes them with `int()`; NaN fails. */
  function ReadCrop(l: Line): (b: Option<BBox>)
    ensures b.Some? <==> l.cropX.Some? && l.cropY.Some? && l.cropWidth.Some? && l.cropHeight.Some?
  {
    if l.cropX.Some? && l.cropY.Some? && l.cropWidth.Some? && l.cropHeight.Some? then
      Some(BBox(l.cropX.value, l.cropY.value, l.cropWidth.value, l.cropHeight.value))
    else None
  }

  /**
   * A trial line as `load_settings` puts it in the table: the trial cell as
   * `str(int(…))` and the two times as they are. An empty cell fails.
   */
  function ReadTrial(l: Line): (r: Option<Row>)
    ensures r.Some? ==> l.start == Some(r.value.start) && l.end == Some(r.value.end)
  {
    if l.trial.None? || l.start.None? || l.end.None? then None
    else match ParseInt(l.trial.value)
      case None => None
      case Some(n) => Some(Row(IntStr(n), l.start.value, l.end.value))
  }

  /**
   * The row a trial line that fails to read leaves in the table: the row is
   * inserted first and its cells are set in turn until one raises (the number
   * at `int(…)`, a time at `QTableWidgetItem(nan)`). A cell never set has no
   * item and is shown empty; the End cell is never set.
   */
  function PartialRow(l: Line): (r: Row)
    ensures ReadTrial(l).None? ==> !Complete(r)
    ensures r.trial != "" ==> l.trial.Some? && ParseInt(l.trial.value).Some?
                              && r.trial == IntStr(ParseInt(l.trial.value).value)
    ensures r.start != "" ==> r.trial != "" && l.start == Some(r.start)
    ensures r.end == ""
  {
    if l.trial.None? then Row("", "", "")
    else match ParseInt(l.trial.value)
      case None => Row("", "", "")
      case Some(n) => if l.start.None? then Row(IntStr(n), "", "") else Row(IntStr(n), l.start.value, "")
  }

  /** The first `n` lines read as trials, or `None` if one of them fails. */
  function ReadTrials(f: seq<Line>, n: nat): (r: Option<seq<Row>>)
    requires n <= |f|
    ensures r.Some? ==> |r.value| == n && forall k :: 0 <= k < n ==> ReadTrial(f[k]) == Some(r.value[k])
    ensures r.None? ==> exists k :: 0 <= k < n && ReadTrial(f[k]).None?
  {
    if n == 0 then Some([])
    else match ReadTrials(f, n - 1)
      case None => None
      case Some(p) =>
        match ReadTrial(f[n - 1])
        case None => None
        case Some(row) => Some(p + [row])
  }

  /** Once a trial line fails to read, every longer run of lines fails too. */
  lemma {:induction false} ReadTrialsStop(f: seq<Line>, i: nat, n: nat)
    requires i < n <= |f| && ReadTrial(f[i]).None?
    ensures ReadTrials(f, n).None?
    decreases n
  {
    if i < n - 1 {
      ReadTrialsStop(f, i, n - 1);
    }
  }

  /**
   * What the filling loop leaves when trial line `|rows| - 1` is the first
   * that fails: the rows of the lines before it, then its half-built row.
   */
  predicate StoppedAt(f: seq<Line>, rows: seq<Row>)
  {
    0 < |rows| < |f| && ReadTrials(f, |rows| - 1) == Some(rows[..|rows| - 1])
    && ReadTrial(f[|rows| - 1]).None? && rows[|rows| - 1] == PartialRow(f[|rows| - 1])
  }

  /** Trial lines that read, then the half-filled row of one that does not: the file's trials do not read. */
  lemma {:induction false} StopAt(f: seq<Line>, filled: seq<Row>, rows: seq<Row>)
    requires |filled| < |f| - 1 && ReadTrials(f, |filled|) == Some(filled) && ReadTrial(f[|filled|]).None?
    requires rows == filled + [PartialRow(f[|filled|])]
    ensures StoppedAt(f, rows) && ReadTrials(f, |f| - 1).None?
  {
    assert rows[..|rows| - 1] == filled;
    ReadTrialsStop(f, |filled|, |f| - 1);
  }

  /** A load stopped by a trial line leaves a table that the export refuses as incomplete. */
  lemma {:induction false} StoppedTableIncomplete(f: seq<Line>, rows: seq<Row>)
    requires StoppedAt(f, rows)
    ensures !AllComplete(rows)
  {
    assert !Complete(rows[|rows| - 1]);
  }

  /** What a successful load puts in the window. */
  datatype Loaded = Loaded(video: string, crop: BBox, trials: seq<Row>)

  /**
   * `load_settings` on a whole file: the last line gives the video and the
   * crop, every line before it is a trial.
   */
  function ReadSettings(f: seq<Line>): (r: Result<Loaded, string>)
    ensures r.Ok? ==>
              |f| > 0 && f[|f| - 1].video == Some(r.value.video)
              && ReadCrop(f[|f| - 1]) == Some(r.value.crop) && ReadTrials(f, |f| - 1) == Some(r.value.trials)
  {
    if |f| == 0 then Err("the file has no lines")
    else
      var last := f[|f| - 1];
      if last.video.None? then Err("no video path")
      else match ReadCrop(last)
        case None => Err("crop cells are empty")
        case Some(b) =>
          match ReadTrials(f, |f| - 1)
          case None => Err("a trial cell is empty or not a number")
          case Some(trials) => Ok(Loaded(last.video.value, b, trials))
  }

  /** A trial number the way the table shows it reads back as itself. */
  lemma {:induction false} CanonicalTrialRead(s: string)
    requires Canonical(s)
    ensures ParseInt(s).Some? && IntStr(ParseInt(s).value) == s
  {
    var n := ParseNat(s).value;
    DigitAt(s, 0);
    assert ParseInt(s) == Some(n as int);
  }

  /** Every number a consistently numbered table shows is canonical. */
  lemma {:induction false} NumberedRowsCanonical(rows: seq<Row>)
    requires WellNumbered(rows)
    ensures forall k :: 0 <= k < |rows| ==> Canonical(rows[k].trial)
  {
    forall k | 0 <= k < |rows| ensures Canonical(rows[k].trial) {
      NatStrRoundTrip(k + 1);
    }
  }

  /** A complete row with a canonical number and times that are not NA strings survives its line. */
  lemma {:induction false} TrialLineRead(r: Row)
    requires Complete(r) && Canonical(r.trial) && TimesNotNa(r)
    ensures ReadTrial(TrialLine(r)) == Some(r)
  {
    CanonicalNotNa(r.trial);
    CanonicalTrialRead(r.trial);
  }

  /** A row whose Start or End holds an NA string is written, but its line does not read back. */
  lemma {:induction false} NaTimeUnreadable(r: Row)
    requires !TimesNotNa(r)
    ensures ReadTrial(TrialLine(r)).None?
  {
  }

  /** The first lines of `f` are the lines of `rows`. */
  predicate LinesOf(rows: seq<Row>, f: seq<Line>)
  {
    |rows| <= |f| && forall k :: 0 <= k < |rows| ==> f[k] == TrialLine(rows[k])
  }

  /** Every row is complete, canonically numbered, and its times are not NA strings. */
  predicate Reloadable(rows: seq<Row>)
  {
    forall k :: 0 <= k < |rows| ==> Complete(rows[k]) && Canonical(rows[k].trial) && TimesNotNa(rows[k])
  }

  lemma {:induction false} TrialLinesRead(rows: seq<Row>, f: seq<Line>, n: nat)
    requires n <= |rows| && LinesOf(rows, f) && Reloadable(rows)
    ensures ReadTrials(f, n) == Some(rows[..n])
  {
    if n > 0 {
      TrialLinesRead(rows, f, n - 1);
      var r := rows[n - 1];
      assert Complete(r) && Canonical(r.trial) && TimesNotNa(r);
      TrialLineRead(r);
      assert ReadTrial(f[n - 1]) == Some(r);
      assert rows[..n] == rows[..n - 1] + [r];
    }
  }

  /**
   * What an export writes, a load reads back unchanged: the video, the crop and
   * every trial, provided every cell was filled (the export checks that), the
   * trial numbers are as the table prints them, and no time or video path is
   * one of the strings pandas reads as NaN.
   */
  lemma {:induction false} SettingsRoundTrip(rows: seq<Row>, crop: BBox, video: string)
    requires AllComplete(rows) && video !in NaValues
    requires forall k :: 0 <= k < |rows| ==> Canonical(rows[k].trial) && TimesNotNa(rows[k])
    ensures ReadSettings(SettingsLines(rows, Some(crop), video)) == Ok(Loaded(video, crop, rows))
  {
    var f := SettingsLines(rows, Some(crop), video);
    assert LinesOf(rows, f) && Reloadable(rows);
    TrialLinesRead(rows, f, |rows|);
    assert rows[..|rows|] == rows;
  }

  /** A numbered, complete table in particular survives the trip. */
  lemma {:induction false} ExportedTableReloads(rows: seq<Row>, crop: BBox, video: string)
    requires AllComplete(rows) && WellNumbered(rows) && video !in NaValues
    requires forall k :: 0 <= k < |rows| ==> TimesNotNa(rows[k])
    ensures ReadSettings(SettingsLines(rows, Some(crop), video)) == Ok(Loaded(video, crop, rows))
  {
    NumberedRowsCanonical(rows);
    SettingsRoundTrip(rows, crop, video);
  }

  /**
   * A file written before the crop was ever set (no selection, no spin-box
   * edit, no earlier load) has empty crop cells, and loading it fails.
   */
  /** A table with an NA string in some Start or End cell is exported, but the file does not load. */
  lemma {:induction false} NaTimeNotReloadable(rows: seq<Row>, crop: BBox, video: string, k: nat)
    requires k < |rows| && !TimesNotNa(rows[k])
    ensures ReadSettings(SettingsLines(rows, Some(crop), video)).Err?
  {
    var f := SettingsLines(rows, Some(crop), video);
    NaTimeUnreadable(rows[k]);
    if video !in NaValues {
      ReadTrialsStop(f, k, |f| - 1);
    }
  }

  lemma {:induction false} UnsetCropNotReloadable(rows: seq<Row>, video: string)
    ensures ReadSettings(SettingsLines(rows, None, video)).Err?
  {
    var f := SettingsLines(rows, None, video);
    assert f[|f| - 1] == CropLine(None, video);
  }
}
