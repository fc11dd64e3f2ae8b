/**
 * The trimming window: the fields its slots read and write and one method per
 * slot. Dialogs, the video file and ffmpeg's exit arrive as parameters or as
 * calls (`LoadVideo` is told what opening the file gave, `ProcessFinished`
 * is ffmpeg's `finished` signal). Where the window's code has a bug recorded
 * under Findings, the method here does what was evidently intended: the
 * timestamp rounds the seconds as a whole, `trial_rem` ignores a selection
 * outside the table, `load_settings` empties the table before filling it, and
 * `finished` stays connected to `clipping_finished` once.
 */
module Trim {
  import opened Common
  import opened Text
  import opened TimeCode
  import opened Crop
  import opened TrialTable
  import opened Settings
  import opened Clipping

  /**
   * What OpenCV and ffprobe report about a video that opens and yields a first
   * frame. `hasAudio` says whether `extract_audio` finds an audio stream in a
   * sample format it knows; without one it raises once the video is shown.
   */
  datatype Video = Video(width: nat, height: nat, fps: real, fpsText: string, codec: string, hasAudio: bool)

  /** A spin box's maximum before any video is loaded, Qt's default. */
  const DefaultMax: nat := 99

  const MissingData := "Missing trial data"

  /** The chosen settings file has lines, and its last line names a video. */
  predicate NamesVideo(file: Option<seq<Line>>)
  {
    file.Some? && |file.value| > 0 && file.value[|file.value| - 1].video.Some?
  }

  /** The last line of a settings file: the crop and the video. */
  function LastLine(f: seq<Line>): Line
    requires |f| > 0
  {
    f[|f| - 1]
  }

  /** The video opens, yields a first frame and has a frame rate. */
  predicate Opens(media: Option<Video>)
  {
    media.Some? && media.value.fps > 0.0
  }

  class MainWindow {
    // the trial table, the selected row and the time text box
    var rows: seq<Row>
    var trialCount: int
    var trial: int
    var timeText: string
    var marks: seq<Marks>

    // the crop rectangle: `bbox`, the crop fields and the four bounding spin boxes
    var bbox: BBox
    var crop: Option<BBox>
    var margins: Margins
    var maxW: nat
    var maxH: nat

    // the loaded video
    var video: Option<Video>
    var videoPath: string
    var videoName: string
    var videoExt: string

    // the export
    var ffmpegInstalled: bool
    var folderPath: string
    var trialdf: seq<Row>
    var currRow: int
    var running: bool
    var started: seq<int>
    var handlers: nat
    var status: string
    var uiEnabled: bool
    /** The argument list of every ffmpeg process started, built from the window's fields as its clip started. */
    var commands: seq<seq<string>>
    /** Every settings file written, with its path. */
    var written: seq<(string, seq<Line>)>

    /**
     * The spin boxes hold values their ranges admit, their maxima follow the
     * loaded video, a loaded video has a frame rate, and `finished` is
     * connected to `clipping_finished` once.
     */
    predicate Valid()
      reads this
    {
      MarginsInRange(margins, maxW, maxH)
      && (video.None? ==> maxW == DefaultMax && maxH == DefaultMax)
      && (video.Some? ==> maxW == video.value.width && maxH == video.value.height && video.value.fps > 0.0)
      && handlers == 1
    }

    function TableState(): Table
      reads this
    {
      Table(rows, trialCount)
    }

    function ExportState(): Export
      reads this`trialdf, this`trialCount, this`currRow, this`running, this`started, this`handlers, this`status,
            this`uiEnabled
    {
      Export(trialdf, trialCount, currRow, running, started, handlers, status, uiEnabled)
    }

    /** What the command of every clip depends on besides its trial. */
    function CurrentJob(): Job
      reads this`video, this`videoPath, this`videoName, this`videoExt, this`crop, this`folderPath
    {
      match video
      case Some(v) => Job(videoPath, videoName, videoExt, v.codec, v.fps, v.fpsText, crop, folderPath)
      case None => Job(videoPath, videoName, videoExt, "", 0.0, "", crop, folderPath)
    }

    /**
     * The window as built: one placeholder trial count, nothing loaded, the
     * editing and export controls disabled until a video loads, and `finished`
     * connected once.
     */
    constructor(ffmpeg: bool)
      ensures Valid()
      ensures rows == [] && trialCount == 1 && trial == 0 && timeText == ""
      ensures bbox == BBox(0, 0, 0, 0) && crop == None && margins == Margins(0, 0, 0, 0)
      ensures video == None && videoPath == "" && folderPath == ""
      ensures ffmpegInstalled == ffmpeg && !running && started == [] && trialdf == []
      ensures !uiEnabled && commands == [] && written == []
    {
      rows, trialCount, trial, timeText, marks := [], 1, 0, "", [];
      bbox, crop, margins := BBox(0, 0, 0, 0), None, Margins(0, 0, 0, 0);
      maxW, maxH := DefaultMax, DefaultMax;
      video, videoPath, videoName, videoExt := None, "", "", "";
      ffmpegInstalled, folderPath, trialdf, currRow := ffmpeg, "", [], 0;
      running, started, handlers, status, uiEnabled, commands, written := false, [], 1, "", false, [], [];
    }

    // ---------------------------------------------------------------- video and time text

    /** The first lines of `load_video`: the path, and its base name split at the extension. */
    method TakePath(path: string)
      modifies this`videoPath, this`videoName, this`videoExt
      ensures videoPath == path && (videoName, videoExt) == SplitExt(BaseName(path))
    {
      videoPath := path;
      var parts := SplitExt(BaseName(path));
      videoName, videoExt := parts.0, parts.1;
    }

    /**
     * The rest of `load_video`, told what opening the file gave: a file that
     * opens, yields a frame and has a frame rate sets the video, enables the
     * controls, and sets the spin boxes' maxima (which clamp their values) and
     * the time text for frame 1.
     */
    method OpenVideo(media: Option<Video>) returns (ok: bool)
      requires Valid()
      modifies this`video, this`uiEnabled, this`maxW, this`maxH, this`margins, this`timeText
      ensures Valid()
      ensures ok <==> media.Some? && media.value.fps > 0.0
      ensures ok ==> video == media && maxW == media.value.width && maxH == media.value.height
      ensures ok ==> margins == Margins(Clamp(old(margins).left, maxW), Clamp(old(margins).right, maxW),
                                        Clamp(old(margins).top, maxH), Clamp(old(margins).bottom, maxH))
      ensures ok ==> timeText == TimeFromFrameRounded(1, media.value.fps) && uiEnabled
      ensures !ok ==> video == old(video) && margins == old(margins) && timeText == old(timeText)
                      && uiEnabled == old(uiEnabled)
    {
      ok := media.Some? && media.value.fps > 0.0;
      if ok {
        var v := media.value;
        video := media;
        uiEnabled := true;
        ShowFrame(1);
        SetMaxima(v.width, v.height);
      }
    }

    /** The four `setMaximum` calls: each spin box takes its new maximum and clamps its value into it. */
    method SetMaxima(w: nat, h: nat)
      modifies this`maxW, this`maxH, this`margins
      ensures maxW == w && maxH == h && MarginsInRange(margins, w, h)
      ensures margins == Margins(Clamp(old(margins).left, w), Clamp(old(margins).right, w),
                                 Clamp(old(margins).top, h), Clamp(old(margins).bottom, h))
    {
      maxW, maxH := w, h;
      margins := Margins(Clamp(margins.left, w), Clamp(margins.right, w), Clamp(margins.top, h), Clamp(margins.bottom, h));
    }

    /** `load_video` with a path: the path is taken before the file is tried. */
    method LoadVideo(path: string, media: Option<Video>) returns (ok: bool)
      requires Valid()
      modifies this`videoPath, this`videoName, this`videoExt, this`video, this`uiEnabled, this`maxW, this`maxH,
               this`margins, this`timeText
      ensures Valid()
      ensures videoPath == path && (videoName, videoExt) == SplitExt(BaseName(path))
      ensures ok <==> media.Some? && media.value.fps > 0.0
      ensures ok ==> video == media && maxW == media.value.width && maxH == media.value.height
      ensures ok ==> margins == Margins(Clamp(old(margins).left, maxW), Clamp(old(margins).right, maxW),
                                        Clamp(old(margins).top, maxH), Clamp(old(margins).bottom, maxH))
      ensures ok ==> timeText == TimeFromFrameRounded(1, media.value.fps) && uiEnabled
      ensures !ok ==> video == old(video) && margins == old(margins) && timeText == old(timeText)
                      && uiEnabled == old(uiEnabled)
    {
      TakePath(path);
      ok := OpenVideo(media);
    }

    /**
     * `update_timestamp`: the time text shows the timestamp of frame `frame`
     * of the loaded video, rounded as a whole (`RoundedTimeReads` says what it
     * reads back as).
     */
    method ShowFrame(frame: nat)
      requires video.Some? && video.value.fps > 0.0
      modifies this`timeText
      ensures timeText == TimeFromFrameRounded(frame, video.value.fps)
    {
      timeText := TimeFromFrameRounded(frame, video.value.fps);
    }

    /**
     * The user types `text` in the time box and finishes editing, which runs
     * `user_set_time`: a time that reads moves the video to the nearest frame,
     * and when that frame is read (`frameRead`) the box shows the frame's
     * timestamp (`TypedTimeShown` bounds how far it lies from the typed time).
     * Otherwise the slot raises or shows nothing new, and the typed text stays.
     */
    method TypeTime(text: string, frameRead: bool)
      requires Valid()
      modifies this`timeText
      ensures video.Some? && frameRead && FrameNear(SecondsFromTime(text), video.value.fps).Some? ==>
                timeText == TimeFromFrameRounded(FrameNear(SecondsFromTime(text), video.value.fps).value, video.value.fps)
      ensures !(video.Some? && frameRead && FrameNear(SecondsFromTime(text), video.value.fps).Some?) ==> timeText == text
    {
      timeText := text;
      if video.Some? && frameRead {
        var frame := FrameNear(SecondsFromTime(text), video.value.fps);
        if frame.Some? {
          ShowFrame(frame.value);
        }
      }
    }

    // ---------------------------------------------------------------- crop rectangle

    /**
     * `update_from_bbox`: the crop fields take `bbox`, and each spin box is
     * set to the distance from the rectangle's side to the frame's, clamped.
     * A rectangle inside the frame is then exactly what the spin boxes describe.
     */
    method UpdateFromBBox()
      requires Valid() && video.Some?
      modifies this`crop, this`margins
      ensures Valid()
      ensures crop == Some(bbox)
      ensures margins == MarginsFromBBox(bbox, video.value.width, video.value.height, maxW, maxH)
      ensures InFrame(bbox, video.value.width, video.value.height) <==>
                BBoxFromMargins(margins, video.value.width, video.value.height) == bbox
    {
      var w, h := video.value.width, video.value.height;
      crop := Some(bbox);
      margins := MarginsFromBBox(bbox, w, h, maxW, maxH);
      BBoxRoundTrip(bbox, w, h);
    }

    /**
     * `update_bounding_box`: the rectangle left once the spin boxes' margins
     * are cut from the frame becomes `bbox` and the crop fields; writing it
     * back into the spin boxes would change none of them.
     */
    method UpdateBoundingBox()
      requires Valid() && video.Some?
      modifies this`bbox, this`crop
      ensures bbox == BBoxFromMargins(margins, video.value.width, video.value.height)
      ensures crop == Some(bbox)
      ensures MarginsFromBBox(bbox, video.value.width, video.value.height, maxW, maxH) == margins
    {
      var w, h := video.value.width, video.value.height;
      bbox := BBoxFromMargins(margins, w, h);
      crop := Some(bbox);
      MarginsRoundTrip(margins, w, h);
    }

    /** The user types margins into the spin boxes, which clamp them, and finishes editing. */
    method EditBounds(m: Margins)
      requires Valid() && video.Some?
      modifies this`margins, this`bbox, this`crop
      ensures Valid()
      ensures MarginsInRange(m, maxW, maxH) ==> margins == m
      ensures bbox == BBoxFromMargins(margins, video.value.width, video.value.height) && crop == Some(bbox)
    {
      margins := Margins(Clamp(m.left, maxW), Clamp(m.right, maxW), Clamp(m.top, maxH), Clamp(m.bottom, maxH));
      UpdateBoundingBox();
    }

    /**
     * `set_box`: the selection becomes `bbox` whatever it is, but only an
     * active one (every value positive) reaches the crop fields and the spin
     * boxes. After a cancelled selection the outline is gone while the crop
     * fields keep the rectangle the export will use.
     */
    method SetBox(selection: BBox)
      requires Valid() && video.Some?
      modifies this`bbox, this`crop, this`margins
      ensures Valid()
      ensures bbox == selection
      ensures IsActive(selection) ==>
                crop == Some(selection)
                && margins == MarginsFromBBox(selection, video.value.width, video.value.height, maxW, maxH)
      ensures !IsActive(selection) ==> crop == old(crop) && margins == old(margins) && Outline(bbox, crop).None?
    {
      bbox := selection;
      if IsActive(bbox) {
        UpdateFromBBox();
      }
    }

    // ---------------------------------------------------------------- trial table

    /** `select_trial`: the clicked row becomes the one the set buttons write to. */
    method SelectTrial(row: int)
      modifies this`trial
      ensures trial == row
    {
      trial := row;
    }

    /** `set_trial_start`: the time text goes into the Start cell of the selected row, if it is a row. */
    method SetTrialStart()
      modifies this`rows
      ensures |rows| == |old(rows)|
      ensures forall k :: 0 <= k < |rows| ==>
                rows[k] == if k == trial then old(rows)[k].(start := timeText) else old(rows)[k]
    {
      rows := SetStart(rows, trial, timeText);
    }

    /** `set_trial_end`: the same time text goes into the End cell of the selected row. */
    method SetTrialEnd()
      modifies this`rows
      ensures |rows| == |old(rows)|
      ensures forall k :: 0 <= k < |rows| ==>
                rows[k] == if k == trial then old(rows)[k].(end := timeText) else old(rows)[k]
    {
      rows := SetEnd(rows, trial, timeText);
    }

    /**
     * `trial_add`: a blank row numbered `trialCount` at index `trialCount - 1`;
     * on a consistent table that appends the next trial.
     */
    method TrialAdd()
      modifies this`rows, this`trialCount
      ensures TableState() == AddTrial(old(TableState()))
      ensures Consistent(old(TableState())) ==>
                Consistent(TableState()) && rows == old(rows) + [Row(NatStr(old(trialCount)), "", "")]
    {
      if Consistent(TableState()) {
        AddKeepsConsistent(TableState());
      }
      var lastTrial := trialCount - 1;
      rows := InsertAt(rows, lastTrial, BlankRow(trialCount));
      trialCount := trialCount + 1;
    }

    /**
     * `trial_rem` with the selection checked: remove the selected row, then
     * renumber the rows that remain. The renumbering loop stops at the first
     * row the table lacks, as the missing item's `setData` would raise there.
     */
    method TrialRem()
      modifies this`rows, this`trialCount
      ensures TableState() == RemoveSelected(old(TableState()), trial)
      ensures Consistent(old(TableState())) ==> Consistent(TableState())
    {
      if Consistent(TableState()) {
        RemoveSelectedKeepsConsistent(TableState(), trial);
      }
      if trialCount > 1 && 0 <= trial < |rows| {
        ghost var before := TableState();
        rows := RemoveAt(rows, trial);
        trialCount := trialCount - 1;
        ghost var removed := rows;
        var row := 0;
        while row < trialCount - 1
          invariant 0 <= row <= |rows| && |rows| == |removed|
          invariant trialCount == before.count - 1
          invariant row == 0 || row <= trialCount - 1
          invariant rows == Renumbered(removed, row)
        {
          if row >= |rows| {
            break;
          }
          rows := rows[row := rows[row].(trial := NatStr(row + 1))];
          row := row + 1;
        }
        assert forall k :: 0 <= k < |rows| ==> rows[k] == Renumbered(removed, trialCount - 1)[k];
        assert TableState() == RemoveTrial(before, trial);
      }
    }

    // ---------------------------------------------------------------- export

    /**
     * `start_clip_video`: ffmpeg starts on the current row if it is a row of
     * `trialdf` whose times read and no ffmpeg is running.
     */
    method StartClipVideo()
      modifies this`running, this`started, this`commands
      ensures ExportState() == Clipping.StartClipVideo(old(ExportState()))
      ensures old(started) <= started
      ensures commands == old(commands) + Commands(CurrentJob(), trialdf, started[|old(started)|..])
    {
      if 0 <= currRow < |trialdf| && Readable(trialdf[currRow]) && !running {
        running := true;
        started := started + [currRow];
        commands := commands + [ClipArgs(CurrentJob(), trialdf[currRow])];
        assert started[|old(started)|..] == [currRow];
      } else {
        assert started[|old(started)|..] == [];
      }
    }

    /** `clipping_finished`: past the last row report completion and enable the controls, otherwise start the next row. */
    method ClippingFinished()
      modifies this`running, this`started, this`currRow, this`status, this`uiEnabled, this`commands
      ensures ExportState() == Clipping.ClippingFinished(old(ExportState()))
      ensures old(started) <= started
      ensures commands == old(commands) + Commands(CurrentJob(), trialdf, started[|old(started)|..])
    {
      if currRow >= trialCount - 1 {
        status := Done;
        uiEnabled := true;
        assert started[|old(started)|..] == [];
      } else {
        currRow := currRow + 1;
        StartClipVideo();
      }
    }

    /** ffmpeg exits, however it ended: every connected slot runs, in turn. */
    method ProcessFinished()
      modifies this`running, this`started, this`currRow, this`status, this`uiEnabled, this`commands
      ensures ExportState() == Clipping.ProcessFinished(old(ExportState()))
      ensures old(started) <= started
      ensures commands == old(commands) + Commands(CurrentJob(), trialdf, started[|old(started)|..])
    {
      if running {
        running := false;
        RunSlots();
      } else {
        assert started[|old(started)|..] == [];
      }
    }

    /** `finished` reaches each of its `handlers` connected slots, in turn. */
    method RunSlots()
      modifies this`running, this`started, this`currRow, this`status, this`uiEnabled, this`commands
      ensures ExportState() == RunHandlers(old(ExportState()), handlers)
      ensures old(started) <= started
      ensures commands == old(commands) + Commands(CurrentJob(), trialdf, started[|old(started)|..])
    {
      ghost var idle, job, s0, c0 := ExportState(), CurrentJob(), started, commands;
      assert started[|s0|..] == [];
      var h := 0;
      while h < handlers
        invariant 0 <= h <= handlers
        invariant RunHandlers(ExportState(), handlers - h) == RunHandlers(idle, handlers)
        invariant CurrentJob() == job
        invariant s0 <= started
        invariant commands == c0 + Commands(job, trialdf, started[|s0|..])
      {
        FinishedSlot(job, s0, c0);
        h := h + 1;
      }
    }

    /** One slot of `finished` runs `clipping_finished`; the commands recorded since `s0` stay those of the rows started since. */
    method FinishedSlot(ghost job: Job, ghost s0: seq<int>, ghost c0: seq<seq<string>>)
      requires CurrentJob() == job && s0 <= started && commands == c0 + Commands(job, trialdf, started[|s0|..])
      modifies this`running, this`started, this`currRow, this`status, this`uiEnabled, this`commands
      ensures ExportState() == Clipping.ClippingFinished(old(ExportState()))
      ensures s0 <= started && commands == c0 + Commands(job, trialdf, started[|s0|..])
    {
      ghost var before, recorded := started, commands;
      ClippingFinished();
      Recorded(job, trialdf, s0, before, started, c0, recorded, commands);
    }

    /** Commands recorded over two steps are those of every row started over both. */
    static lemma {:induction false} Recorded(job: Job, trials: seq<Row>, a: seq<int>, b: seq<int>, c: seq<int>,
                                             ca: seq<seq<string>>, cb: seq<seq<string>>, cc: seq<seq<string>>)
      requires a <= b && b <= c
      requires cb == ca + Commands(job, trials, b[|a|..]) && cc == cb + Commands(job, trials, c[|b|..])
      ensures a <= c && cc == ca + Commands(job, trials, c[|a|..])
    {
      assert c[|a|..] == b[|a|..] + c[|b|..];
      CommandsAppend(job, trials, b[|a|..], c[|b|..]);
    }

    /** `start_clipping`, with `finished` left connected once: go to row 0 and start it. */
    method StartClipping()
      modifies this`running, this`started, this`currRow, this`commands
      ensures ExportState() == StartClippingOnce(old(ExportState()))
      ensures old(started) <= started
      ensures commands == old(commands) + Commands(CurrentJob(), trialdf, started[|old(started)|..])
    {
      currRow := 0;
      StartClipVideo();
    }

    /** `stop_process` (Cancel): a running ffmpeg is killed and the controls are enabled again. */
    method StopProcess()
      modifies this`uiEnabled
      ensures ExportState() == Clipping.StopProcess(old(ExportState()))
    {
      if running {
        uiEnabled := true;
      }
    }

    /**
     * The part of `split_video` past the folder dialog: `trialdf` takes the
     * table row by row and the settings file is written into the folder. The
     * file of a complete, numbered table with its crop set reads back as it,
     * unless a time or the video path is a string pandas reads as NaN; a time
     * like that makes the file unloadable.
     */
    method WriteSettings()
      requires trialCount == |rows|
      modifies this`trialdf, this`written
      ensures trialdf == rows
      ensures written == old(written) + [(SettingsPath(folderPath, videoName), SettingsLines(rows, crop, videoPath))]
      ensures AllComplete(rows) && WellNumbered(rows) && crop.Some? && videoPath !in NaValues
                && (forall k :: 0 <= k < |rows| ==> TimesNotNa(rows[k])) ==>
                ReadSettings(written[|written| - 1].1) == Ok(Loaded(videoPath, crop.value, rows))
      ensures crop.Some? && (exists k :: 0 <= k < |rows| && !TimesNotNa(rows[k])) ==>
                ReadSettings(written[|written| - 1].1).Err?
    {
      var df: seq<Row> := [];
      var row := 0;
      while row < trialCount
        invariant 0 <= row <= trialCount
        invariant df == rows[..row]
      {
        df := df + [rows[row]];
        row := row + 1;
      }
      assert df == rows;
      trialdf := df;
      written := written + [(SettingsPath(folderPath, videoName), SettingsLines(trialdf, crop, videoPath))];
      if AllComplete(rows) && WellNumbered(rows) && crop.Some? && videoPath !in NaValues
         && (forall k :: 0 <= k < |rows| ==> TimesNotNa(rows[k])) {
        ExportedTableReloads(rows, crop.value, videoPath);
      }
      if crop.Some? && exists k :: 0 <= k < |rows| && !TimesNotNa(rows[k]) {
        ghost var k :| 0 <= k < |rows| && !TimesNotNa(rows[k]);
        NaTimeNotReloadable(rows, crop.value, videoPath, k);
      }
    }

    /**
     * `block_ui(False)` and `start_clipping`: the controls are disabled and the
     * first clip started. From an idle window with every trial readable, the
     * export then runs every trial once, in order, and completes.
     */
    method StartExport()
      requires handlers == 1
      modifies this`uiEnabled, this`running, this`started, this`currRow, this`commands
      ensures ExportState() == StartClippingOnce(old(ExportState()).(uiEnabled := false))
      ensures old(started) <= started
      ensures commands == old(commands) + Commands(CurrentJob(), trialdf, started[|old(started)|..])
      ensures ReadyToExport(old(ExportState())) ==>
                var s := Run(ExportState(), |trialdf|);
                !s.running && s.status == Done && s.uiEnabled && s.started == old(started) + Upto(|trialdf|)
    {
      uiEnabled := false;
      ghost var ready := ExportState();
      StartClipping();
      if ReadyToExport(ready) {
        EveryExportCompletes(ready);
      }
    }

    /**
     * The first part of `split_video`: the count is reset to the number of
     * rows, and every empty cell of the table is marked.
     */
    method MarkTrials() returns (valid: bool)
      modifies this`trialCount, this`marks
      ensures trialCount == |rows| && (valid <==> AllComplete(rows))
      ensures |marks| == |rows| && forall k :: 0 <= k < |rows| ==> marks[k] == MarksOf(rows[k])
    {
      trialCount := |rows|;
      var m;
      valid, m := CheckTrials(rows);
      marks := m;
    }

    /**
     * `split_video` with the chosen folder (`""` when the dialog is cancelled):
     * the count is reset to the number of rows, every empty cell is marked, and
     * only a complete table goes further. Then the settings file is written
     * (`WriteSettings`, which says what reading it back gives) and, with ffmpeg
     * present, the clips are started (`StartExport`, which says how the export
     * runs to its end).
     */
    method SplitVideo(folder: string)
      requires Valid() && video.Some?
      modifies this`trialCount, this`marks, this`status, this`folderPath, this`trialdf, this`written,
               this`uiEnabled, this`running, this`started, this`currRow, this`commands
      ensures Valid()
      ensures trialCount == |rows|
      ensures |marks| == |rows| && forall k :: 0 <= k < |rows| ==> marks[k] == MarksOf(rows[k])
      ensures !AllComplete(rows) ==>
                folderPath == old(folderPath) && written == old(written)
                && ExportState() == old(ExportState()).(count := |rows|, status := MissingData)
      ensures AllComplete(rows) ==> folderPath == folder
      ensures AllComplete(rows) && folder == "" ==>
                written == old(written) && ExportState() == old(ExportState()).(count := |rows|)
      ensures AllComplete(rows) && folder != "" ==>
                written == old(written) + [(SettingsPath(folder, videoName), SettingsLines(rows, crop, videoPath))]
      ensures AllComplete(rows) && folder != "" && !ffmpegInstalled ==>
                ExportState() == old(ExportState()).(trials := rows, count := |rows|)
      ensures AllComplete(rows) && folder != "" && ffmpegInstalled ==>
                ExportState() == StartClippingOnce(old(ExportState()).(trials := rows, count := |rows|, uiEnabled := false))
      ensures old(started) <= started
      ensures commands == old(commands) + Commands(CurrentJob(), trialdf, started[|old(started)|..])
    {
      var valid := MarkTrials();
      if !valid {
        status := MissingData;
        assert started[|old(started)|..] == [];
        return;
      }
      folderPath := folder;
      if folder == "" {
        assert started[|old(started)|..] == [];
        return;
      }
      ExportTable();
    }

    /**
     * `split_video` once the table is complete and a folder chosen: the
     * settings file is written and, with ffmpeg present, the clips started;
     * without ffmpeg the user is told the file was saved.
     */
    method ExportTable()
      requires handlers == 1 && trialCount == |rows|
      modifies this`trialdf, this`written, this`uiEnabled, this`running, this`started, this`currRow, this`commands
      ensures trialdf == rows
      ensures written == old(written) + [(SettingsPath(folderPath, videoName), SettingsLines(rows, crop, videoPath))]
      ensures !ffmpegInstalled ==> ExportState() == old(ExportState()).(trials := rows)
      ensures ffmpegInstalled ==> ExportState() == StartClippingOnce(old(ExportState()).(trials := rows, uiEnabled := false))
      ensures old(started) <= started
      ensures commands == old(commands) + Commands(CurrentJob(), trialdf, started[|old(started)|..])
    {
      WriteSettings();
      if !ffmpegInstalled {
        assert started[|old(started)|..] == [];
        return;
      }
      StartExport();
    }

    // ---------------------------------------------------------------- settings file

    /**
     * The clearing loop of `load_settings` as evidently intended:
     * `removeRow(0)` until no row is left, which leaves the count at 1.
     */
    method ClearTable()
      modifies this`rows, this`trialCount
      ensures rows == [] && trialCount == 1
      ensures Consistent(TableState())
    {
      while |rows| > 0
        decreases |rows|
      {
        rows := RemoveAt(rows, 0);
      }
      trialCount := 1;
    }

    /**
     * The filling loop of `load_settings`: row `i` is inserted, trial line `i`
     * is read into its cells, and the count goes up. A line that does not read
     * raises and ends the loop there, with the lines before it in the table,
     * then the half-filled row of the failing line (`StoppedAt`), and the count
     * not yet raised for it.
     */
    method FillTable(f: seq<Line>)
      requires |f| > 0 && rows == [] && trialCount == 1
      modifies this`rows, this`trialCount
      ensures ReadTrials(f, |f| - 1).Some? ==> rows == ReadTrials(f, |f| - 1).value && trialCount == |rows| + 1
      ensures ReadTrials(f, |f| - 1).None? ==> StoppedAt(f, rows) && trialCount == |rows|
    {
      var i := 0;
      while i < |f| - 1
        invariant 0 <= i <= |f| - 1
        invariant ReadTrials(f, i) == Some(rows) && trialCount == i + 1
      {
        ghost var filled := rows;
        assert InsertAt(rows, i, Row("", "", "")) == filled + [Row("", "", "")];
        rows := InsertAt(rows, i, Row("", "", ""));
        var r := ReadTrial(f[i]);
        if r.None? {
          rows := rows[i := PartialRow(f[i])];
          StopAt(f, filled, rows);
          return;
        }
        rows := rows[i := r.value];
        assert rows == filled + [r.value];
        trialCount := trialCount + 1;
        i := i + 1;
      }
    }

    /**
     * `load_settings` with the file the dialog chose (`None` when cancelled):
     * the last line's video is loaded, its crop taken into `bbox`, the crop
     * fields and the spin boxes, the table emptied and the trial lines
     * inserted in order. A step that raises ends the load there: a file without
     * lines or without a video changes nothing, a video that does not open
     * stops after its path is taken, a video without audio stops once it is
     * shown (`extract_audio` raises), empty crop cells stop before the crop, and
     * a trial line that does not read stops the filling at its half-filled row.
     * A file that reads whole is loaded exactly as it reads.
     */
    method LoadSettings(file: Option<seq<Line>>, media: Option<Video>)
      requires Valid()
      modifies this`videoPath, this`videoName, this`videoExt, this`video, this`uiEnabled, this`maxW, this`maxH,
               this`margins, this`timeText, this`bbox, this`crop, this`rows, this`trialCount
      ensures Valid()
      ensures !NamesVideo(file) ==> unchanged(this)
      ensures NamesVideo(file) ==>
                videoPath == LastLine(file.value).video.value && (videoName, videoExt) == SplitExt(BaseName(videoPath))
      ensures NamesVideo(file) && !Opens(media) ==>
                video == old(video) && uiEnabled == old(uiEnabled) && margins == old(margins) && timeText == old(timeText)
                && bbox == old(bbox) && crop == old(crop) && TableState() == old(TableState())
      ensures NamesVideo(file) && Opens(media) ==>
                video == media && uiEnabled && maxW == media.value.width && maxH == media.value.height
                && timeText == TimeFromFrameRounded(1, media.value.fps)
      ensures NamesVideo(file) && Opens(media) && (!media.value.hasAudio || ReadCrop(LastLine(file.value)).None?) ==>
                margins == Margins(Clamp(old(margins).left, maxW), Clamp(old(margins).right, maxW),
                                   Clamp(old(margins).top, maxH), Clamp(old(margins).bottom, maxH))
                && bbox == old(bbox) && crop == old(crop) && TableState() == old(TableState())
      ensures NamesVideo(file) && Opens(media) && media.value.hasAudio && ReadCrop(LastLine(file.value)).Some? ==>
                bbox == ReadCrop(LastLine(file.value)).value && crop == Some(bbox)
                && margins == MarginsFromBBox(bbox, media.value.width, media.value.height, maxW, maxH)
      ensures NamesVideo(file) && Opens(media) && media.value.hasAudio && ReadCrop(LastLine(file.value)).Some?
              && ReadTrials(file.value, |file.value| - 1).None? ==>
                StoppedAt(file.value, rows) && trialCount == |rows|
      ensures file.Some? && ReadSettings(file.value).Ok? && Opens(media) && media.value.hasAudio ==>
                var l := ReadSettings(file.value).value;
                videoPath == l.video && video == media && bbox == l.crop && crop == Some(l.crop)
                && margins == MarginsFromBBox(l.crop, media.value.width, media.value.height, maxW, maxH)
                && rows == l.trials && trialCount == |rows| + 1
                && (WellNumbered(l.trials) ==> Consistent(TableState()))
    {
      if !NamesVideo(file) {
        return;
      }
      LoadFile(file.value, media);
    }

    /** `load_settings` once the dialog has chosen a file whose last line names a video. */
    method LoadFile(f: seq<Line>, media: Option<Video>)
      requires Valid() && |f| > 0 && LastLine(f).video.Some?
      modifies this`videoPath, this`videoName, this`videoExt, this`video, this`uiEnabled, this`maxW, this`maxH,
               this`margins, this`timeText, this`bbox, this`crop, this`rows, this`trialCount
      ensures Valid()
      ensures videoPath == LastLine(f).video.value && (videoName, videoExt) == SplitExt(BaseName(videoPath))
      ensures !Opens(media) ==>
                video == old(video) && uiEnabled == old(uiEnabled) && margins == old(margins) && timeText == old(timeText)
                && bbox == old(bbox) && crop == old(crop) && TableState() == old(TableState())
      ensures Opens(media) ==>
                video == media && uiEnabled && maxW == media.value.width && maxH == media.value.height
                && timeText == TimeFromFrameRounded(1, media.value.fps)
      ensures Opens(media) && (!media.value.hasAudio || ReadCrop(LastLine(f)).None?) ==>
                margins == Margins(Clamp(old(margins).left, maxW), Clamp(old(margins).right, maxW),
                                   Clamp(old(margins).top, maxH), Clamp(old(margins).bottom, maxH))
                && bbox == old(bbox) && crop == old(crop) && TableState() == old(TableState())
      ensures Opens(media) && media.value.hasAudio && ReadCrop(LastLine(f)).Some? ==>
                bbox == ReadCrop(LastLine(f)).value && crop == Some(bbox)
                && margins == MarginsFromBBox(bbox, media.value.width, media.value.height, maxW, maxH)
      ensures Opens(media) && media.value.hasAudio && ReadCrop(LastLine(f)).Some?
              && ReadTrials(f, |f| - 1).None? ==>
                StoppedAt(f, rows) && trialCount == |rows|
      ensures ReadSettings(f).Ok? && Opens(media) && media.value.hasAudio ==>
                var l := ReadSettings(f).value;
                videoPath == l.video && video == media && bbox == l.crop && crop == Some(l.crop)
                && margins == MarginsFromBBox(l.crop, media.value.width, media.value.height, maxW, maxH)
                && rows == l.trials && trialCount == |rows| + 1
                && (WellNumbered(l.trials) ==> Consistent(TableState()))
    {
      var ok := LoadVideo(LastLine(f).video.value, media);
      if !ok || !media.value.hasAudio {
        return;
      }
      ApplySettings(f);
    }

    /**
     * `load_settings` once the video has loaded: the last line's crop goes
     * into `bbox`, the crop fields and the spin boxes (`update_from_bbox`),
     * then the table is emptied and filled from the trial lines (`FillTable`).
     * Empty crop cells raise before the crop is taken.
     */
    method ApplySettings(f: seq<Line>)
      requires Valid() && video.Some? && |f| > 0
      modifies this`margins, this`bbox, this`crop, this`rows, this`trialCount
      ensures Valid()
      ensures ReadCrop(LastLine(f)).None? ==>
                bbox == old(bbox) && crop == old(crop) && margins == old(margins) && TableState() == old(TableState())
      ensures ReadCrop(LastLine(f)).Some? ==>
                bbox == ReadCrop(LastLine(f)).value && crop == Some(bbox)
                && margins == MarginsFromBBox(bbox, video.value.width, video.value.height, maxW, maxH)
      ensures ReadCrop(LastLine(f)).Some? && ReadTrials(f, |f| - 1).Some? ==>
                rows == ReadTrials(f, |f| - 1).value && trialCount == |rows| + 1
      ensures ReadCrop(LastLine(f)).Some? && ReadTrials(f, |f| - 1).None? ==>
                StoppedAt(f, rows) && trialCount == |rows|
    {
      var b := ReadCrop(f[|f| - 1]);
      if b.None? {
        return;
      }
      bbox := b.value;
      UpdateFromBBox();
      ClearTable();
      FillTable(f);
    }
  }
}
