/**
 * Cutting the clips: the ffmpeg command line built for each trial, and the
 * export loop that runs one ffmpeg process per trial, moving to the next row
 * each time the process reports `finished`. The process itself is outside the
 * model; what the model records is the row of `trialdf` each process was
 * started on (its arguments are `ClipArgs` of that row), and the `finished`
 * events arrive as calls.
 */
module Clipping {
  import opened Common
  import opened Text
  import opened Crop
  import opened TrialTable
  import opened TimeCode

  /** What a clip's command depends on besides its trial: the loaded video, the crop fields and the output folder. */
  datatype Job = Job(videoPath: string, videoName: string, videoExt: string, codec: string,
                     fps: real, fpsText: string, crop: Option<BBox>, folder: string)

  // ---------------------------------------------------------------- the command line

  /** The crop fields as ffmpeg's filter reads them: width, height, left, top; fields never set print as `None`. */
  function CropFilter(crop: Option<BBox>): string
  {
    match crop
    case Some(b) => "crop=" + JoinWith(':', [IntStr(b.w), IntStr(b.h), IntStr(b.x), IntStr(b.y)])
    case None => "crop=" + JoinWith(':', ["None", "None", "None", "None"])
  }

  /** HEVC sources are re-encoded with x265, everything else with x264. */
  function Encoder(codec: string): string
  {
    if codec == "hevc" then "libx265" else "libx264"
  }

  /** `<video name>_t<trial><video extension>`. */
  function ClipName(job: Job, trial: string): string
  {
    job.videoName + "_t" + trial + job.videoExt
  }

  function OutputPath(job: Job, trial: string): string
  {
    Join(job.folder, ClipName(job, trial))
  }

  /** The arguments `start_clip_video` gives ffmpeg for one trial; `-r` only when the frame rate is not zero. */
  function ClipArgs(job: Job, r: Row): (args: seq<string>)
    ensures |args| == if job.fps != 0.0 then 23 else 21
  {
    ["-y", "-i", job.videoPath, "-ss", r.start, "-to", r.end, "-vf", CropFilter(job.crop),
     "-map", "0:v", "-map", "0:a?", "-c:v", Encoder(job.codec)]
    + (if job.fps != 0.0 then ["-r", job.fpsText] else [])
    + ["-c:a", "copy", "-progress", "pipe:1", "-nostats", OutputPath(job, r.trial)]
  }

  /** The values a command line of that shape carries. */
  datatype Command = Command(input: string, start: string, end: string, filter: string,
                             encoder: string, rate: Option<string>, output: string)

  /** The fixed words of the command, around the `-r` option if there is one. */
  predicate FixedWords(args: seq<string>, tail: nat)
    requires tail + 6 <= |args| && |args| >= 15
  {
    args[0] == "-y" && args[1] == "-i" && args[3] == "-ss" && args[5] == "-to" && args[7] == "-vf"
    && args[9] == "-map" && args[10] == "0:v" && args[11] == "-map" && args[12] == "0:a?"
    && args[13] == "-c:v"
    && args[tail] == "-c:a" && args[tail + 1] == "copy" && args[tail + 2] == "-progress"
    && args[tail + 3] == "pipe:1" && args[tail + 4] == "-nostats"
  }

  /** Reads a command line back by position, as ffmpeg takes its options. */
  function ReadArgs(args: seq<string>): Option<Command>
  {
    if |args| == 21 && FixedWords(args, 15) then
      Some(Command(args[2], args[4], args[6], args[8], args[14], None, args[20]))
    else if |args| == 23 && FixedWords(args, 17) && args[15] == "-r" then
      Some(Command(args[2], args[4], args[6], args[8], args[14], Some(args[16]), args[22]))
    else None
  }

  /**
   * Every trial's command carries the video, the trial's own start and end, the
   * crop, the encoder, the frame rate when there is one, and the clip's path.
   */
  lemma {:induction false} ClipArgsRead(job: Job, r: Row)
    ensures ReadArgs(ClipArgs(job, r)) == Some(Command(job.videoPath, r.start, r.end, CropFilter(job.crop),
      Encoder(job.codec), if job.fps != 0.0 then Some(job.fpsText) else None, OutputPath(job, r.trial)))
  {
    var args := ClipArgs(job, r);
    if job.fps != 0.0 {
      assert FixedWords(args, 17) && args[15] == "-r";
    } else {
      assert FixedWords(args, 15);
    }
  }

  /** The clip lands in the chosen folder, named after the video and the trial. */
  lemma {:induction false} ClipFileName(job: Job, trial: string)
    requires '/' !in job.videoName && '/' !in trial && '/' !in job.videoExt
    ensures BaseName(OutputPath(job, trial)) == job.videoName + "_t" + trial + job.videoExt
  {
    var name := ClipName(job, trial);
    assert forall k :: 0 <= k < |name| ==> name[k] != '/' by {
      forall k | 0 <= k < |name| ensures name[k] != '/' {
        if k < |job.videoName| {
          assert name[k] == job.videoName[k];
        } else if k < |job.videoName| + 2 {
        } else if k < |job.videoName| + 2 + |trial| {
          assert name[k] == trial[k - |job.videoName| - 2];
        } else {
          assert name[k] == job.videoExt[k - |job.videoName| - 2 - |trial|];
        }
      }
    }
    JoinBaseName(job.folder, name);
  }

  // ---------------------------------------------------------------- the crop filter read back

  /** `crop=w:h:x:y` read back into a rectangle, as ffmpeg parses its integer arguments. */
  function ReadCropFilter(f: string): Option<BBox>
  {
    if |f| < 5 || f[..5] != "crop=" then None
    else
      var p := Split(f[5..], ':');
      if |p| != 4 then None
      else match (ParseInt(p[0]), ParseInt(p[1]), ParseInt(p[2]), ParseInt(p[3]))
        case (Some(w), Some(h), Some(x), Some(y)) => Some(BBox(x, y, w, h))
        case _ => None
  }

  lemma {:induction false} IntStrNoColon(i: int)
    ensures ':' !in IntStr(i)
  {
    if i < 0 {
      NoColonInDigits(NatStr(-i));
      assert IntStr(i) == "-" + NatStr(-i);
    } else {
      NoColonInDigits(NatStr(i));
    }
  }

  /** The four fields of the filter, for `SplitJoin`. */
  lemma {:induction false} FilterFields(b: BBox)
    ensures var fields := [IntStr(b.w), IntStr(b.h), IntStr(b.x), IntStr(b.y)];
      forall k :: 0 <= k < |fields| ==> ':' !in fields[k]
  {
    IntStrNoColon(b.w);
    IntStrNoColon(b.h);
    IntStrNoColon(b.x);
    IntStrNoColon(b.y);
  }

  /** ffmpeg reads back exactly the crop fields the window holds. */
  lemma {:induction false} CropFilterRoundTrip(b: BBox)
    ensures ReadCropFilter(CropFilter(Some(b))) == Some(b)
  {
    var fields := [IntStr(b.w), IntStr(b.h), IntStr(b.x), IntStr(b.y)];
    var f := CropFilter(Some(b));
    assert f[..5] == "crop=" && f[5..] == JoinWith(':', fields);
    FilterFields(b);
    SplitJoin(':', fields);
    IntStrRoundTrip(b.w);
    IntStrRoundTrip(b.h);
    IntStrRoundTrip(b.x);
    IntStrRoundTrip(b.y);
  }

  /** A string with a character that is neither a digit nor a leading minus is no integer. */
  lemma {:induction false} NotAnInteger(s: string)
    requires |s| > 0 && s[0] != '-' && !IsDigit(s[0])
    ensures ParseInt(s).None?
  {
    if AllDigits(s) {
      DigitAt(s, 0);
    }
  }

  /**
   * Crop fields that were never set reach ffmpeg as `crop=None:None:None:None`,
   * which is no crop filter at all: the clip fails.
   */
  lemma {:induction false} UnsetCropUnreadable()
    ensures ReadCropFilter(CropFilter(None)).None?
  {
    var fields := ["None", "None", "None", "None"];
    var f := CropFilter(None);
    assert f[..5] == "crop=" && f[5..] == JoinWith(':', fields);
    assert ':' !in "None";
    SplitJoin(':', fields);
    NotAnInteger("None");
  }

  // ---------------------------------------------------------------- the export loop

  /**
   * The export as the window runs it: the trials being clipped (`trialdf`),
   * the count `clipping_finished` compares against (`trialCount`), the current
   * row, whether ffmpeg is running, the rows it has been started on, in order,
   * how many times `clipping_finished` is connected to `finished`, the
   * status-bar text and whether the controls are enabled. The command a row
   * is started with is built from the window's video, crop and folder at that
   * moment; `Commands` gives the commands of rows started under one job, and
   * the window records each command as its clip starts (Cancel enables the
   * controls again while the export goes on, so the job can change between
   * clips).
   */
  datatype Export = Export(trials: seq<Row>, count: int, currRow: int, running: bool,
                           started: seq<int>, handlers: nat, status: string, uiEnabled: bool)

  const Done := "Export complete!"

  /**
   * Both times of a trial read as timestamps; otherwise `get_seconds_from_time`
   * raises (a `ValueError` from `float`, an `IndexError` for a single piece)
   * after the arguments are built and before ffmpeg starts.
   */
  predicate Readable(r: Row)
  {
    SecondsFromTime(r.start).Some? && SecondsFromTime(r.end).Some?
  }

  predicate AllReadable(rows: seq<Row>)
  {
    forall k :: 0 <= k < |rows| ==> Readable(rows[k])
  }

  /**
   * `start_clip_video`: a row outside `trialdf` raises `KeyError`, an
   * unreadable time raises, and `QProcess.start` refuses a process that is
   * still running; otherwise ffmpeg starts on the current row.
   */
  function StartClipVideo(e: Export): (e': Export)
    ensures e'.running == (e.running || (0 <= e.currRow < |e.trials| && Readable(e.trials[e.currRow])))
    ensures e'.started == if e'.running == e.running then e.started else e.started + [e.currRow]
    ensures e' == e.(running := e'.running, started := e'.started)
  {
    if !(0 <= e.currRow < |e.trials|) then e
    else if !Readable(e.trials[e.currRow]) then e
    else if e.running then e
    else e.(running := true, started := e.started + [e.currRow])
  }

  /** `clipping_finished`: report completion past the last row, otherwise start the next one. */
  function ClippingFinished(e: Export): Export
  {
    if e.currRow >= e.count - 1 then e.(status := Done, uiEnabled := true)
    else StartClipVideo(e.(currRow := e.currRow + 1))
  }

  /** Each connection of `finished` to `clipping_finished` runs it once more. */
  function RunHandlers(e: Export, n: nat): Export
    decreases n
  {
    if n == 0 then e else RunHandlers(ClippingFinished(e), n - 1)
  }

  /**
   * ffmpeg exits, whether it succeeded, failed or was killed: the process is no
   * longer running and `finished` reaches every connected slot. Nothing looks
   * at the exit code or at whether the export was cancelled.
   */
  function ProcessFinished(e: Export): Export
  {
    if e.running then RunHandlers(e.(running := false), e.handlers) else e
  }

  /** `start_clipping`: connect `finished` once more, go to row 0 and start it. */
  function StartClipping(e: Export): (e': Export)
    ensures e'.handlers == e.handlers + 1 && e'.currRow == 0
  {
    StartClipVideo(e.(handlers := e.handlers + 1, currRow := 0))
  }

  /** `stop_process` (Cancel): kill a running ffmpeg and re-enable the controls; its exit comes as `finished`. */
  function StopProcess(e: Export): Export
  {
    if e.running then e.(uiEnabled := true) else e
  }

  /** `n` successive exits of ffmpeg. */
  function Run(e: Export, n: nat): Export
    decreases n
  {
    if n == 0 then e else ProcessFinished(Run(e, n - 1))
  }

  /** The rows 0, 1, …, `n - 1`, in order. */
  function Upto(n: nat): (a: seq<int>)
    ensures |a| == n && forall i :: 0 <= i < n ==> a[i] == i
  {
    if n == 0 then [] else Upto(n - 1) + [n - 1]
  }

  /** The argument lists ffmpeg is started with: each started row's command. */
  function Commands(job: Job, trials: seq<Row>, started: seq<int>): (c: seq<seq<string>>)
    ensures |c| == |started|
    ensures forall i :: 0 <= i < |started| && 0 <= started[i] < |trials| ==> c[i] == ClipArgs(job, trials[started[i]])
  {
    seq(|started|, i requires 0 <= i < |started| =>
      if 0 <= started[i] < |trials| then ClipArgs(job, trials[started[i]]) else [])
  }

  /** The commands of two runs of starts, one after the other. */
  lemma {:induction false} CommandsAppend(job: Job, trials: seq<Row>, a: seq<int>, b: seq<int>)
    ensures Commands(job, trials, a + b) == Commands(job, trials, a) + Commands(job, trials, b)
  {
    var c := Commands(job, trials, a + b);
    var d := Commands(job, trials, a) + Commands(job, trials, b);
    forall i | 0 <= i < |c| ensures c[i] == d[i] {
      if i < |a| {
        assert (a + b)[i] == a[i];
      } else {
        assert (a + b)[i] == b[i - |a|];
      }
    }
  }

  /** Starting rows 0 to n - 1 in order runs every trial's command once, in table order. */
  lemma {:induction false} CommandsInOrder(job: Job, trials: seq<Row>, base: seq<int>)
    ensures var c := Commands(job, trials, base + Upto(|trials|));
      c[..|base|] == Commands(job, trials, base)
      && |c| == |base| + |trials|
      && forall k :: 0 <= k < |trials| ==> c[|base| + k] == ClipArgs(job, trials[k])
  {
    var s := base + Upto(|trials|);
    var c := Commands(job, trials, s);
    forall k | 0 <= k < |trials| ensures c[|base| + k] == ClipArgs(job, trials[k]) {
      assert s[|base| + k] == k;
    }
    assert c[..|base|] == Commands(job, trials, base) by {
      forall i | 0 <= i < |base| ensures c[i] == Commands(job, trials, base)[i] {
        assert s[i] == base[i];
      }
    }
  }

  /**
   * Clip `k` of `trials` is being encoded, one slot is connected, and rows 0
   * through `k` have been started once each, in order, after `base`.
   */
  predicate Encoding(s: Export, trials: seq<Row>, base: seq<int>, k: nat)
  {
    s.trials == trials && s.handlers == 1 && s.running && s.currRow == k && k < |trials|
    && s.count == |trials| && s.started == base + Upto(k + 1)
  }

  /** One exit while clip `k` is encoded and trials remain starts clip `k + 1`. */
  lemma {:induction false} StepInOrder(s: Export, trials: seq<Row>, base: seq<int>, k: nat)
    requires Encoding(s, trials, base, k) && AllReadable(trials) && k + 1 < |trials|
    ensures ProcessFinished(s) == s.(currRow := k + 1, started := base + Upto(k + 2))
  {
    var idle := s.(running := false);
    assert ProcessFinished(s) == ClippingFinished(idle);
    assert Readable(trials[k + 1]);
  }

  /** The exit of the last clip reports completion and re-enables the controls. */
  lemma {:induction false} LastStep(s: Export, trials: seq<Row>, base: seq<int>, k: nat)
    requires Encoding(s, trials, base, k) && k + 1 == |trials|
    ensures ProcessFinished(s) == s.(running := false, status := Done, uiEnabled := true)
  {
    var idle := s.(running := false);
    assert ProcessFinished(s) == ClippingFinished(idle);
  }

  /** Exits keep the clips coming in order while trials remain. */
  lemma {:induction false} RunInOrder(s: Export, trials: seq<Row>, base: seq<int>, k: nat, m: nat)
    requires Encoding(s, trials, base, k) && AllReadable(trials) && k + m < |trials|
    ensures Run(s, m) == s.(currRow := k + m, started := base + Upto(k + m + 1))
    decreases m
  {
    if m > 0 {
      RunInOrder(s, trials, base, k, m - 1);
      StepInOrder(Run(s, m - 1), trials, base, k + m - 1);
    }
  }

  /** Once clip 0 is encoding, the remaining exits run every trial in order and then report completion. */
  lemma {:induction false} ExportCompletes(s0: Export, trials: seq<Row>, base: seq<int>)
    requires Encoding(s0, trials, base, 0) && AllReadable(trials)
    ensures var s := Run(s0, |trials|);
      !s.running && s.status == Done && s.uiEnabled && s.started == base + Upto(|trials|)
  {
    var n := |trials|;
    RunInOrder(s0, trials, base, 0, n - 1);
    LastStep(Run(s0, n - 1), trials, base, n - 1);
  }

  /** The export as `split_video` sets it up: `trialCount` reset to the number of rows. */
  predicate ReadyToExport(e: Export)
  {
    !e.running && e.count == |e.trials| && |e.trials| > 0 && AllReadable(e.trials)
  }

  /**
   * The first export of a session runs every trial exactly once, in table order,
   * and reports completion after the last exit.
   */
  lemma {:induction false} FirstExportCompletes(e: Export)
    requires ReadyToExport(e) && e.handlers == 0
    ensures var s := Run(StartClipping(e), |e.trials|);
      !s.running && s.status == Done && s.uiEnabled && s.started == e.started + Upto(|e.trials|)
  {
    var s0 := StartClipping(e);
    assert Readable(e.trials[0]);
    assert Encoding(s0, e.trials, e.started, 0);
    ExportCompletes(s0, e.trials, e.started);
  }

  /**
   * As written, the second export of a session has `finished` connected twice:
   * each exit advances two rows, the second handler's start is refused because
   * the first one's ffmpeg is already running, and a three-trial export reports
   * completion having cut only the first two trials.
   */
  lemma {:induction false} SecondExportSkipsTrial(e: Export)
    requires ReadyToExport(e) && e.handlers == 1 && |e.trials| == 3
    ensures var s := Run(StartClipping(e), 2);
      !s.running && s.status == Done && s.started == e.started + [0, 1]
  {
    var t := e.trials;
    assert Readable(t[0]) && Readable(t[1]) && Readable(t[2]);
    var s0 := StartClipping(e);
    assert s0 == e.(handlers := 2, currRow := 0, running := true, started := e.started + [0]);
    var a := s0.(running := false);
    var a1 := ClippingFinished(a);
    assert a1 == a.(currRow := 1, running := true, started := s0.started + [1]);
    var a2 := ClippingFinished(a1);
    assert a2 == a1.(currRow := 2);
    assert ProcessFinished(s0) == a2;
    var b := a2.(running := false);
    var b1 := ClippingFinished(b);
    assert b1 == b.(status := Done, uiEnabled := true);
    assert ClippingFinished(b1) == b1;
    assert ProcessFinished(a2) == b1;
  }

  /** `start_clipping` as evidently intended: `finished` stays connected once, from when the window is built. */
  function StartClippingOnce(e: Export): (e': Export)
    ensures e'.handlers == e.handlers && e'.currRow == 0
  {
    StartClipVideo(e.(currRow := 0))
  }

  /** With the slot connected once, every export runs each trial exactly once, in order, and completes. */
  lemma {:induction false} EveryExportCompletes(e: Export)
    requires ReadyToExport(e) && e.handlers == 1
    ensures var s := Run(StartClippingOnce(e), |e.trials|);
      !s.running && s.status == Done && s.uiEnabled && s.started == e.started + Upto(|e.trials|)
  {
    var s0 := StartClippingOnce(e);
    assert Readable(e.trials[0]);
    assert Encoding(s0, e.trials, e.started, 0);
    ExportCompletes(s0, e.trials, e.started);
  }

  /**
   * Cancel kills the current clip, but its exit reaches `clipping_finished`
   * like any other: the next trial starts, with the controls already enabled.
   */
  lemma {:induction false} CancelStartsNextClip(s: Export, trials: seq<Row>, base: seq<int>, k: nat)
    requires Encoding(s, trials, base, k) && AllReadable(trials) && k + 1 < |trials|
    ensures Encoding(ProcessFinished(StopProcess(s)), trials, base, k + 1)
    ensures ProcessFinished(StopProcess(s)).uiEnabled
  {
    var c := StopProcess(s);
    assert Encoding(c, trials, base, k) && c.uiEnabled;
    StepInOrder(c, trials, base, k);
  }

  /** Once ffmpeg is not running, no exit arrives and nothing changes. */
  lemma {:induction false} IdleStaysIdle(s: Export, m: nat)
    requires !s.running
    ensures Run(s, m) == s
    decreases m
  {
    if m > 0 {
      IdleStaysIdle(s, m - 1);
    }
  }

  /**
   * An empty table starts nothing (`trialdf.loc[0]` raises): no exit will ever
   * come, so the export never reports completion.
   */
  lemma {:induction false} EmptyExportStalls(e: Export, m: nat)
    requires |e.trials| == 0 && !e.running
    ensures var s := Run(StartClipping(e), m);
      !s.running && s.started == e.started && s.status == e.status && s.uiEnabled == e.uiEnabled
  {
    IdleStaysIdle(StartClipping(e), m);
  }

  /**
   * A trial whose time does not read (say `1:2:x`) stops the export when its
   * turn comes: nothing is started, nothing is reported, and no later exit
   * arrives to move on.
   */
  lemma {:induction false} UnreadableTimeStalls(s: Export, trials: seq<Row>, base: seq<int>, k: nat, m: nat)
    requires Encoding(s, trials, base, k) && k + 1 < |trials| && !Readable(trials[k + 1])
    ensures var t := Run(ProcessFinished(s), m);
      !t.running && t.currRow == k + 1 && t.started == s.started && t.status == s.status
  {
    var t := ProcessFinished(s);
    assert t == s.(running := false, currRow := k + 1);
    IdleStaysIdle(t, m);
  }
}
