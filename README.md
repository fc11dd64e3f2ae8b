# Trial trimming window, modelled in Dafny

This project models the core of `main_trim.py`, the "Trial Splitter" window of
the MotionTracking tools. The user loads a video and marks trials in a table:
each row has a trial number and a start and an end timestamp. The user also
sets a crop rectangle, either by selecting it on the frame or with four margin
spin boxes. Export then writes a settings file, `<video>_trialTimes.csv`, and
cuts one clip per trial with ffmpeg, one process after another. "Load Param"
reads such a file back.

The model has these modules:

- `Text`: the Python string primitives the window relies on. These are
  `str(int)`, `int(str)`, the `:02`-style zero padding, `str.split`, the
  decimal subset of `float()`, `os.path.split`, `os.path.splitext` and
  `os.path.join` with `/` as the separator.
- `TimeCode`: `get_seconds_from_time`, `get_time_from_seconds` and
  `get_time_from_frame`. Time is counted in ticks of 1/10000 s, the precision
  `{:07.4f}` prints.
- `Crop`: the crop rectangle (`bbox`), the four clamping spin boxes, and the
  conversions between them.
- `TrialTable`: the trial table with `trialCount`, the add and remove buttons,
  the validation before export, and the clearing loop of `load_settings`.
- `Settings`: the settings file as lines of cells, what an export writes, and
  what a load reads.
- `Clipping`: the ffmpeg command line of each clip, and the export as a state
  machine driven by ffmpeg's `finished` signal.
- `Trim`: the `MainWindow` class. It has the window's fields and one method per
  slot: `load_video`, `load_settings`, `set_box`, `update_from_bbox`,
  `update_bounding_box`, the table buttons, `split_video`, `start_clipping`,
  `start_clip_video`, `clipping_finished` and `stop_process`.

Two behaviours of the code as written are proved and kept as they are:

- `clipping_finished` never looks at ffmpeg's exit status or at a cancel, so
  Cancel starts the next clip (`CancelStartsNextClip`).
- `split_video` resets `trialCount` to the number of rows, so a trial added
  after an export repeats the last number (`AddAfterExportRepeatsNumber`).

Four outright bugs are listed under Findings. For each of them the window
class uses the corrected behaviour.

## Model

| member | source | states |
|---|---|---|
| Text.NatStrRoundTrip | main_trim.py:992-993 | `int(str(n))` gives back `n`, and `str(n)` has no leading zero |
| Text.IntStrRoundTrip | main_trim.py:992-993 | `int(str(i)) == i` for every integer, negative ones included |
| Text.ReadNegative | main_trim.py:992-993 | a minus sign followed by digits reads as the negated value |
| Text.PadValue | main_trim.py:43 | a `:0w` padded number reads back as itself, and is exactly `w` digits long when it is below 10^w |
| Text.Split | main_trim.py:28 | `str.split` always gives at least one piece |
| Text.SplitNoSeparator | main_trim.py:28 | a string without the separator splits into itself alone |
| Text.SplitLastPiece | main_trim.py:28 | appending a separator and a separator-free piece appends exactly that piece to the split |
| Text.SplitJoin | main_trim.py:28 | splitting fields joined with a separator they do not contain gives the fields back |
| Text.ParseDigits | main_trim.py:31 | `float()` of a run of digits is its decimal value |
| Text.ParseDecimal | main_trim.py:31 | `float("w.f")` is `w + f / 10^len(f)` |
| Text.BaseName | main_trim.py:875 | `os.path.split(p)[1]` holds no separator and is the suffix of `p` after its last one |
| Text.SplitExt | main_trim.py:875-876 | name and extension concatenate to the base name; the extension is empty or one dot followed by no other dot |
| Text.JoinBaseName | main_trim.py:1316-1317 | the base name of `os.path.join(folder, name)` is `name` |
| TimeCode.HoursMinutesSeconds | main_trim.py:27-31 | `h:m:s` reads as `h*3600 + m*60 + s` |
| TimeCode.MinutesSeconds | main_trim.py:32-34 | `m:s` reads as `m*60 + s` |
| TimeCode.SameFirstPieces | main_trim.py:29-31 | only the first three pieces of a three-or-more-piece time matter |
| TimeCode.ExtraPiecesIgnored | main_trim.py:29-31 | pieces after the third are ignored |
| TimeCode.SinglePieceRefused | main_trim.py:28-34 | a time without a colon does not read (`time[1]` raises) |
| TimeCode.RoundTicks | main_trim.py:43 | rounding to 1/10000 s lands within half a tick, and is non-negative for non-negative input |
| TimeCode.SecondsFieldTicks | main_trim.py:40-43 | the seconds field, as `{:07.4f}` rounds it, is at most 60.0000 s |
| TimeCode.TimestampFields | main_trim.py:39-46 | a rounded timestamp splits into hours, two-digit minutes below 60 and a seconds field below 60 |
| TimeCode.TimestampRead | main_trim.py:27-46 | a timestamp with fields in range reads back as the time it shows |
| TimeCode.TimestampRoundTrip | main_trim.py:27-46 | any tick count, formatted and read back, is exactly that many ticks |
| TimeCode.AgreesBelowSixty | main_trim.py:39-46 | when the seconds field does not round up to 60, the source's formatter and the corrected one print the same text |
| TimeCode.LateFrameFields | main_trim.py:39-46 | `get_time_from_seconds(13379.99996...)` prints hours 3, minutes 42 and seconds 60 |
| TimeCode.SixtySecondsOnScreen | main_trim.py:1251-1260 | frame 400999 at 30000/1001 fps is shown as `3:42:60.0000` |
| TimeCode.RoundedTimeReads | main_trim.py:1251-1260 | the corrected frame timestamp reads back within half a tick of `frame / fps`, and its seconds field is below 60 |
| TimeCode.FrameZero | main_trim.py:1251-1260 | frame 0 is shown as `0:00:00.0000` |
| Crop.Clamp | main_trim.py:1047-1050 | a spin box keeps a value in `[0, max]`: the value itself when it is in range, the bound it crosses otherwise |
| Crop.BBoxFromMargins | main_trim.py:1056-1073 | the rectangle starts at the left and top margins, and margins plus extent make up the frame |
| Crop.MarginsFromBBox | main_trim.py:1047-1050 | every spin box ends up within its range |
| Crop.MarginsRoundTrip | main_trim.py:1035-1073 | margins turned into a rectangle and written back come back unchanged |
| Crop.BBoxRoundTrip | main_trim.py:1035-1073 | a rectangle survives the spin boxes exactly when it lies inside the frame |
| Crop.Outline | main_trim.py:1228-1233 | the outline is drawn exactly when every bbox value is positive and the crop is set, from the crop corner with the crop extent |
| Crop.EdgeRectangleInactive | main_trim.py:1230 | a rectangle from the spin boxes is drawn exactly when the left and top margins are positive and the extents are positive |
| Crop.MarginsGiveFrameRectangle | main_trim.py:1056-1073 | an active rectangle from the spin boxes lies inside the frame |
| TrialTable.InsertAt | main_trim.py:1092 | `insertRow(i)` puts the row at index `i` and shifts the rest; out of range it does nothing |
| TrialTable.RemoveAt | main_trim.py:1105 | `removeRow(i)` drops row `i` and keeps the others in order; out of range it does nothing |
| TrialTable.SetStart | main_trim.py:1075-1077 | only the Start cell of the selected row changes |
| TrialTable.SetEnd | main_trim.py:1079-1081 | only the End cell of the selected row changes |
| TrialTable.Renumbered | main_trim.py:1107-1109 | renumbering keeps the number of rows |
| TrialTable.AddTrial | main_trim.py:1089-1099 | `trial_add` raises the count by one |
| TrialTable.RemoveTrial | main_trim.py:1102-1109 | `trial_rem` does nothing when the count is 1, and otherwise lowers it by one |
| TrialTable.AddKeepsConsistent | main_trim.py:1089-1099 | on a consistent table, adding appends a blank row with the next number and keeps the table consistent |
| TrialTable.RemoveKeepsConsistent | main_trim.py:1102-1109 | removing a selected row that exists drops exactly that row, keeps the others' times in order, and keeps the table consistent |
| TrialTable.StaleSelectionLosesCount | main_trim.py:1102-1106 | with a selection past the last row, nothing is removed but the count drops, so the table is no longer consistent |
| TrialTable.StaleSelectionExample | main_trim.py:1083-1109 | add, add, select row 2, remove, remove, add: the table shows trial 1 twice |
| TrialTable.RemoveSelectedKeepsConsistent | main_trim.py:1102-1109 | the corrected removal keeps the table consistent whatever is selected, and leaves it alone when the selection is not a row |
| TrialTable.AddAfterExportRepeatsNumber | main_trim.py:1267 | after `split_video` resets the count, the next added trial has the same number as the last row |
| TrialTable.MarksOf | main_trim.py:1270-1288 | a row gets no mark exactly when all three of its cells are filled |
| TrialTable.CheckTrials | main_trim.py:1267-1290 | every row is marked cell by cell, and the trials are valid exactly when no cell is empty |
| TrialTable.OddPositions | main_trim.py:985-987 | the rows the clearing loop keeps after the first are the second, fourth, … of them: row k of the result is row 2k + 1 of its input, half of them rounded down |
| TrialTable.ClearLeavesEvenRows | main_trim.py:985-987 | the clearing loop as written keeps the first, third, … rows, so a non-empty table is never emptied |
| TrialTable.ClearAll | main_trim.py:985-987 | removing row 0 until none is left empties the table |
| Settings.TextCell | main_trim.py:1318 | a text cell that is empty or one of pandas' default NA strings ("NA", "nan", "None", "null", "N/A", …) reads back as NaN; any other reads as itself |
| Settings.CanonicalNotNa | main_trim.py:992-993 | a trial number as the table prints it is never an NA string, so it reads back as itself |
| Settings.NaTimeUnreadable | main_trim.py:994-997 | a row whose Start or End holds an NA string is written, but its line does not read back |
| Settings.NaTimeNotReloadable | main_trim.py:1295-1318 | a table with an NA string in some Start or End cell is exported, but the file does not load |
| Settings.SettingsLines | main_trim.py:1295-1318 | one line per trial, in order, then the crop-and-video line |
| Settings.SettingsFileName | main_trim.py:1316-1317 | the file is named `<video name>_trialTimes.csv`, in the chosen folder |
| Settings.ReadCrop | main_trim.py:979-980 | the crop reads exactly when all four crop cells are filled |
| Settings.ReadTrial | main_trim.py:991-997 | a trial line that reads keeps its start and end text |
| Settings.PartialRow | main_trim.py:991-997 | the row a failing trial line leaves: the number only when `int()` reads it, the start only after it, never the end, so the row is incomplete |
| Settings.ReadTrials | main_trim.py:989-998 | all trial lines read, in order, or some line does not read |
| Settings.ReadTrialsStop | main_trim.py:989-998 | once a trial line fails, the reading of every longer prefix fails too |
| Settings.ReadSettings | main_trim.py:967-1001 | a load that succeeds takes the last line's video and crop, and one trial per other line, each as it reads |
| Settings.StopAt | main_trim.py:989-998 | trial lines that read, followed by the half-filled row of one that does not, are where a load stops, and then the file's trials do not read |
| Settings.StoppedTableIncomplete | main_trim.py:1270-1290 | a table a load stopped in has an incomplete last row, so an export refuses it until it is filled |
| Settings.CanonicalTrialRead | main_trim.py:992-993 | `str(int(s))` of a number as the table prints it is `s` |
| Settings.NumberedRowsCanonical | main_trim.py:992-993 | every number of a consistently numbered table is printed canonically |
| Settings.TrialLineRead | main_trim.py:989-998 | a complete row with a canonical number and times that are not NA strings reads back as itself |
| Settings.TrialLinesRead | main_trim.py:989-998 | the lines written for complete, canonical rows read back as those rows |
| Settings.SettingsRoundTrip | main_trim.py:967-1001 | an exported file loads back with the same video, crop and trials, when no time or video path is an NA string |
| Settings.ExportedTableReloads | main_trim.py:1295-1318 | a complete, consistently numbered table whose times and video path are not NA strings survives export and load |
| Settings.UnsetCropNotReloadable | main_trim.py:1297-1299 | a file written before the crop was ever set cannot be loaded |
| Clipping.ClipArgs | main_trim.py:1522-1549 | a command has 23 arguments with a frame rate and 21 without |
| Clipping.ClipArgsRead | main_trim.py:1504-1562 | each command carries the video, the trial's start and end, the crop, the encoder, the frame rate when there is one, and the clip's path |
| Clipping.ClipFileName | main_trim.py:1518-1519 | the clip is `<video name>_t<trial><extension>` in the chosen folder |
| Clipping.CropFilterRoundTrip | main_trim.py:1526 | ffmpeg reads back exactly the crop the window holds |
| Clipping.NotAnInteger | main_trim.py:1526 | text starting with neither a digit nor a minus sign is not an integer |
| Clipping.UnsetCropUnreadable | main_trim.py:1526 | crop fields that were never set give `crop=None:None:None:None`, which ffmpeg cannot read |
| Clipping.StartClipVideo | main_trim.py:1504-1562 | ffmpeg starts on the current row exactly when it is a row, its times read and no ffmpeg is running; nothing else changes |
| Clipping.StartClipping | main_trim.py:1488-1496 | `start_clipping` connects `finished` once more and goes to row 0 |
| Clipping.Commands | main_trim.py:1518-1562 | under one job (video, crop and folder), each started row runs its own command line |
| Clipping.CommandsAppend | main_trim.py:1561-1562 | the commands of two runs of starts, one after the other, are the first run's then the second's |
| Clipping.CommandsInOrder | main_trim.py:1504-1585 | starting rows 0 to n - 1 runs every trial's command once, in table order |
| Clipping.StepInOrder | main_trim.py:1564-1585 | an exit while trials remain starts the next row |
| Clipping.LastStep | main_trim.py:1566-1574 | the exit of the last clip reports completion and re-enables the controls |
| Clipping.RunInOrder | main_trim.py:1564-1585 | successive exits start the rows in order while trials remain |
| Clipping.ExportCompletes | main_trim.py:1564-1585 | once clip 0 runs, the exits run every trial in order and then report completion |
| Clipping.FirstExportCompletes | main_trim.py:1488-1585 | the first export of a session runs each trial exactly once, in order, and completes |
| Clipping.SecondExportSkipsTrial | main_trim.py:1488-1496 | on the second export `finished` is connected twice, and a three-trial export completes having cut only two clips |
| Clipping.StartClippingOnce | main_trim.py:1488-1496 | the corrected `start_clipping` goes to row 0 and leaves the connection count alone |
| Clipping.EveryExportCompletes | main_trim.py:1488-1585 | with `finished` connected once, every export runs each trial exactly once, in order, and completes |
| Clipping.CancelStartsNextClip | main_trim.py:1498-1502 | Cancel kills the clip, but its exit starts the next trial while the controls are enabled |
| Clipping.IdleStaysIdle | main_trim.py:1564-1585 | without a running ffmpeg no exit arrives and nothing changes |
| Clipping.EmptyExportStalls | main_trim.py:1504-1508 | an empty table starts nothing and never reports completion |
| Clipping.UnreadableTimeStalls | main_trim.py:1552-1553 | a trial whose time does not read stops the export at that trial for good |
| Trim.MainWindow.constructor | main_trim.py:701-813 | the window starts with no rows, count 1, nothing loaded, crop unset, zero bbox, no command recorded, and the editing and export controls disabled until a video loads |
| Trim.MainWindow.TakePath | main_trim.py:866-876 | the path is stored and split into base name and extension |
| Trim.MainWindow.OpenVideo | main_trim.py:886-929 | a video that opens with a frame rate is stored, the controls are enabled, the spin-box maxima become its size and clamp the margins, and frame 1's time is shown; otherwise nothing changes |
| Trim.MainWindow.SetMaxima | main_trim.py:926-929 | each spin box takes its new maximum and clamps its value into it |
| Trim.MainWindow.LoadVideo | main_trim.py:866-963 | the path is always taken, and the rest is as `OpenVideo` states |
| Trim.MainWindow.ShowFrame | main_trim.py:1219-1225 | the time text shows the corrected timestamp of the frame |
| Trim.MainWindow.TypeTime | main_trim.py:1185-1204 | a typed time that reads moves to the nearest frame, and when that frame is read the box shows its timestamp; otherwise the typed text stays |
| TimeCode.NearestFrame | main_trim.py:1197-1198 | the frame for a time is within half a frame of it |
| TimeCode.HalfFrame | main_trim.py:1197-1198 | the nearest frame's own time is within half a frame's duration of the typed time |
| TimeCode.SnappedTimeNear | main_trim.py:1185-1204 | the timestamp shown for the nearest frame reads back within half a frame, plus the printing precision, of the typed time |
| TimeCode.TypedTimeShown | main_trim.py:1185-1204 | whenever a typed time snaps to a frame, the time then shown reads back within half a frame, plus the printing precision, of what was typed |
| Trim.MainWindow.UpdateFromBBox | main_trim.py:1035-1054 | the crop takes the bbox, the spin boxes take the clamped margins, and they describe the bbox exactly when it is inside the frame |
| Trim.MainWindow.UpdateBoundingBox | main_trim.py:1056-1073 | bbox and crop become the rectangle the margins leave, and writing it back would move no spin box |
| Trim.MainWindow.EditBounds | main_trim.py:1056-1073 | in-range margins are kept as typed, and bbox and crop follow them |
| Trim.MainWindow.SetBox | main_trim.py:1003-1033 | the selection becomes the bbox; only an active selection reaches the crop and the spin boxes, and an inactive one hides the outline |
| Trim.MainWindow.SelectTrial | main_trim.py:1083-1086 | the clicked row becomes the selected trial |
| Trim.MainWindow.SetTrialStart | main_trim.py:1075-1077 | the time text goes into the selected row's Start cell and nowhere else |
| Trim.MainWindow.SetTrialEnd | main_trim.py:1079-1081 | the time text goes into the selected row's End cell and nowhere else |
| Trim.MainWindow.TrialAdd | main_trim.py:1089-1099 | the table changes as `AddTrial` says, which on a consistent table appends the next trial |
| Trim.MainWindow.TrialRem | main_trim.py:1102-1109 | the loop removes the selected row and renumbers, as the corrected `RemoveSelected`, and keeps the table consistent |
| Trim.MainWindow.StartClipVideo | main_trim.py:1504-1562 | the export state changes as `Clipping.StartClipVideo`, and a started clip's command is recorded from the window's video, crop and folder at that moment |
| Trim.MainWindow.ClippingFinished | main_trim.py:1564-1585 | the export state changes as `Clipping.ClippingFinished`; the commands recorded are those of the rows it started |
| Trim.MainWindow.ProcessFinished | main_trim.py:1564-1585 | each connected slot runs once, as `Clipping.ProcessFinished`; the commands recorded are those of the rows started |
| Trim.MainWindow.RunSlots | main_trim.py:1564-1585 | `finished` reaches each connected slot in turn, and every row started gets its command recorded, in order |
| Trim.MainWindow.FinishedSlot | main_trim.py:1564-1585 | one slot runs `clipping_finished`, and the commands recorded still match the rows started |
| Trim.MainWindow.Recorded | main_trim.py:1561-1562 | commands recorded over two steps are those of every row started over both |
| Trim.MainWindow.StartClipping | main_trim.py:1488-1496 | the export state changes as `StartClippingOnce`, with the started row's command recorded |
| Trim.MainWindow.StopProcess | main_trim.py:1498-1502 | the controls are re-enabled, as `Clipping.StopProcess` |
| Trim.MainWindow.MarkTrials | main_trim.py:1267-1290 | the count becomes the number of rows, every empty cell is marked, and the result is true exactly when the table is complete |
| Trim.MainWindow.WriteSettings | main_trim.py:1295-1318 | `trialdf` takes the table, one file is added at the settings path, a complete, numbered table with its crop set reads back from it unchanged when no time or path is an NA string, and does not load at all when a time is one |
| Trim.MainWindow.StartExport | main_trim.py:1334-1342 | the controls are blocked and row 0 is started; from a ready state the export runs every trial once, in order, and completes |
| Trim.MainWindow.ExportTable | main_trim.py:1295-1342 | the settings file is written, and the clips are started only with ffmpeg present |
| Trim.MainWindow.SplitVideo | main_trim.py:1262-1345 | count reset and marks; an incomplete table writes nothing, leaves the folder alone and shows the status; a cancelled folder stops; otherwise the file is written and, with ffmpeg, the export starts |
| Trim.MainWindow.ClearTable | main_trim.py:985-987 | the corrected clearing loop empties the table, leaving a consistent count of 1 |
| Trim.MainWindow.FillTable | main_trim.py:989-998 | the trial lines are inserted in order with the count one past them; a line that does not read stops the filling at its inserted, half-filled row, with the earlier lines before it and the count not raised for it |
| Trim.MainWindow.ApplySettings | main_trim.py:979-998 | empty crop cells leave crop and table alone; otherwise bbox, crop and spin boxes take the crop, and the table is refilled as `FillTable` states |
| Trim.MainWindow.LoadSettings | main_trim.py:967-1001 | a file without a video changes nothing; otherwise as `LoadFile` states |
| Trim.MainWindow.LoadFile | main_trim.py:967-1001 | the path, name and extension are taken; a video that does not open changes nothing else; an opened video enables the controls, sets the maxima and shows frame 1; a video without audio (`extract_audio` raises, 948 and 111) or empty crop cells leave crop, bbox and table alone with the margins clamped; otherwise bbox, crop and margins take the crop, and the table is filled or stops at a half-filled row; a file that reads whole loads exactly what it reads, with the count one past the rows |

## Left out

- The user interface: widgets, layout, the progress dialog, the status bar text apart from "Missing trial data", and the playback, slider, drag and audio slots (`video_play`, `video_stop`, `user_move_slider`, `update_audio_tracker`, `update_tracker`). Of `user_set_time`, the slider position and the audio tracker are left out.
- `update_frame_number` and `update_image` beyond the time text and the crop outline: the slider value, the pixmap conversion and the frame counter are display only.
- The video and audio threads, OpenCV decoding, and the ffprobe calls for codec, sample rate and audio. `LoadVideo` is given what opening the file gave, including whether `extract_audio` finds an audio stream it can read.
- Running ffmpeg. The model records the row each process is started on, and the argument list built for it at that moment. Exits arrive as `ProcessFinished` calls, in order.
- `clip_output_parse` and the progress text. Progress parsing changes no state the model keeps, so its duplicate connection is harmless here.
- The file and folder dialogs. Their results are parameters, with `""` or `None` for a cancel.
- Trim.MainWindow.LoadVideo: a cancelled Open Video dialog is not modelled. The source then stores `None` as the path and raises in `os.path.split`.
- Reading and writing files. A settings file is a sequence of `Line`s, the form it has between `to_csv` and `read_csv`. pandas' quoting, its type inference and its float formatting of integer columns are not modelled.
- Trial numbers in a settings file are read as integers. A number pandas writes as `3.0` is not modelled.
- Floating point. Times are real numbers, and `{:07.4f}` rounds half up on the exact value where Python rounds the nearest binary double half to even.
- `float()` is modelled only on plain decimals (digits with an optional fraction, optional sign and surrounding spaces), not on exponents, `inf` or `nan`.
- Frame rates are positive reals. A video whose frame rate is 0 is treated as one that does not open, because `get_time_from_frame` would divide by zero.
- The `-r` argument is the frame rate's text as the window receives it, not Python's `str(float)`.
- Paths use `/` only. Windows drive letters and backslashes are not modelled.
- Fields that start as `None` (video path, folder, crop values) start as `""` or as `Option.None`.
- The `ffmpegInstalled` check is a constructor parameter.
- `TimeCode.SecondsFromTime`: a single-piece time raises `IndexError` in the source and is `None` here, like any other time that does not read.
- Trim.MainWindow.ShowFrame, Trim.MainWindow.TrialRem, Trim.MainWindow.ClearTable and Trim.MainWindow.StartClipping: these follow the corrected behaviour of the Findings below, not the code as written.
- Trim.MainWindow.SplitVideo: `block_ui(False)` is modelled as a single "controls enabled" flag.
- Trim.MainWindow.constructor: the controls disabled at build time and enabled by `load_video` (the slider, play button, spin boxes, crop button, time box, save and table buttons) are the same single flag.
- Trim.MainWindow.TypeTime: whether OpenCV reads the frame is a parameter. A typed time before the start, whose nearest frame is negative, is treated as one whose frame is not read. With no video loaded the time box is disabled, and the typed text stays.
- TimeCode.NearestFrame: Python's `round` sends an exact half to the even frame on the binary double; the model rounds halves up. The half-frame bound holds either way.
- Trim.MainWindow.ApplySettings: when some crop cells are empty, the source stores the NaN-holding crop row in `bbox` and sets the integer crop fields it reaches (`cropWidth`, then `cropHeight`, then `cropX`) before `int(nan)` raises. `bbox` holds integers here, so the model keeps the old `bbox` and crop instead of that half-written state.
- The NA strings of `Settings.NaValues` are pandas 2's default `na_values`; older pandas versions do not read "None" as NaN.
- Trim.MainWindow.LoadSettings: a last line with an empty Video cell makes the source store NaN as the video path before `load_video` raises. The model treats such a file as naming no video and changes nothing.
- Settings.ReadTrial: the trial cell is built as `QTableWidgetItem(Qt.DisplayRole, text)`. The model assumes this builds an item that shows `text`. PySide6 documents constructors that take the text first. If that call raises `TypeError`, then no trial line ever reloads, and every load with trials stops at one item-less first row.
- TrialTable.MarksOf: a cell with no item is modelled as an empty cell. `split_video` would raise `AttributeError` on `.text()` for it rather than mark it.

## Findings

| source | as written | input that shows it | evidently intended | confidence | as-written member | corrected member |
|---|---|---|---|---|---|---|
| main_trim.py:1251-1260 | hours and minutes come from `divmod`, but seconds are rounded only when printed with `{:07.4f}`, so 59.99996 s prints as `60.0000` without carrying into the minutes | frame 400999 at 30000/1001 fps shows `3:42:60.0000` | round the whole time to 1/10000 s first, then split it into hours, minutes and seconds | not executed | TimeCode.SixtySecondsOnScreen | TimeCode.RoundedTimeReads |
| main_trim.py:1102-1109 | `removeRow(self.trial)` on a row that no longer exists does nothing, but `trialCount` is still decremented | add two trials, select row 2, remove twice, add: trial 1 appears twice | remove only when the selection is a row of the table | not executed | TrialTable.StaleSelectionExample | TrialTable.RemoveSelectedKeepsConsistent |
| main_trim.py:985-987 | `for i in range(1, trialCount): removeRow(i)` removes from a table that shrinks as it goes | a table of three trials keeps trials 1 and 3 before the file's trials are inserted | remove every row before loading | not executed | TrialTable.ClearLeavesEvenRows | TrialTable.ClearAll |
| main_trim.py:1488-1496 | every `start_clipping` connects `finished` to `clipping_finished` again | a second export of three trials cuts only two clips and reports completion | connect once, when the window is built | not executed | Clipping.SecondExportSkipsTrial | Clipping.EveryExportCompletes |
