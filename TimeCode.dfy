/**
 * Timestamps as the trimmer shows and stores them: `H:MM:SS.ssss` text, read
 * back into seconds. Seconds are exact reals here; a "tick" is a ten-thousandth
 * of a second, the resolution of the printed seconds field.
 */
module TimeCode {
  import opened Common
  import opened Text

  /**
   * `get_seconds_from_time`: split on `:`; with three or more pieces the first
   * three are hours, minutes and seconds (later pieces are never read), with
   * two they are minutes and seconds, and a single piece fails on `time[1]`.
   * Each piece is read with `float()`; `None` is the exception the source raises.
   */
  function SecondsFromTime(text: string): Option<real>
  {
    var parts := Split(text, ':');
    if |parts| > 2 then
      var h, m, s := ParseNumber(parts[0]), ParseNumber(parts[1]), ParseNumber(parts[2]);
      if h.Some? && m.Some? && s.Some? then Some(h.value * 3600.0 + m.value * 60.0 + s.value) else None
    else if |parts| == 2 then
      var m, s := ParseNumber(parts[0]), ParseNumber(parts[1]);
      if m.Some? && s.Some? then Some(m.value * 60.0 + s.value) else None
    else None
  }

  /** A three-part timestamp `h:m:s` reads as `h*3600 + m*60 + s`. */
  lemma {:induction false} HoursMinutesSeconds(a: string, b: string, c: string, h: real, m: real, s: real)
    requires ':' !in a && ':' !in b && ':' !in c
    requires ParseNumber(a) == Some(h) && ParseNumber(b) == Some(m) && ParseNumber(c) == Some(s)
    ensures SecondsFromTime(JoinWith(':', [a, b, c])) == Some(h * 3600.0 + m * 60.0 + s)
  {
    SplitJoin(':', [a, b, c]);
    ThreeFieldsRead(JoinWith(':', [a, b, c]), h, m, s);
  }

  /** Only the first three pieces of a timestamp are read. */
  lemma {:induction false} SameFirstPieces(t1: string, t2: string)
    requires |Split(t1, ':')| > 2 && |Split(t2, ':')| > 2
    requires Split(t1, ':')[..3] == Split(t2, ':')[..3]
    ensures SecondsFromTime(t1) == SecondsFromTime(t2)
  {
    var p1, p2 := Split(t1, ':'), Split(t2, ':');
    assert p1[0] == p1[..3][0] && p1[1] == p1[..3][1] && p1[2] == p1[..3][2];
    assert p2[0] == p2[..3][0] && p2[1] == p2[..3][1] && p2[2] == p2[..3][2];
  }

  /** Pieces after the third are ignored: `h:m:s:junk` reads as `h:m:s`. */
  lemma {:induction false} ExtraPiecesIgnored(pieces: seq<string>)
    requires |pieces| > 3
    requires forall i :: 0 <= i < |pieces| ==> ':' !in pieces[i]
    ensures SecondsFromTime(JoinWith(':', pieces)) == SecondsFromTime(JoinWith(':', pieces[..3]))
  {
    SplitJoin(':', pieces);
    SplitJoin(':', pieces[..3]);
    assert pieces[..3][..3] == pieces[..3];
    SameFirstPieces(JoinWith(':', pieces), JoinWith(':', pieces[..3]));
  }

  /** A two-part timestamp `m:s` reads as `m*60 + s`. */
  lemma {:induction false} MinutesSeconds(a: string, b: string, m: real, s: real)
    requires ':' !in a && ':' !in b
    requires ParseNumber(a) == Some(m) && ParseNumber(b) == Some(s)
    ensures SecondsFromTime(JoinWith(':', [a, b])) == Some(m * 60.0 + s)
  {
    SplitJoin(':', [a, b]);
  }

  /** Text without any colon is refused. */
  lemma {:induction false} SinglePieceRefused(a: string)
    requires ':' !in a
    ensures SecondsFromTime(a) == None
  {
    SplitNoSeparator(a, ':');
  }

  /** The nearest tick, halves rounded up: the `{:.4f}` rounding of a seconds value. */
  function RoundTicks(x: real): (t: int)
    ensures x * 10000.0 - 0.5 < t as real <= x * 10000.0 + 0.5
    ensures x >= 0.0 ==> t >= 0
  {
    (x * 10000.0 + 0.5).Floor
  }

  /**
   * The ticks printed in the seconds field by the source: `divmod(x, 60)` keeps
   * the remainder below 60, and only then is it rounded to four decimals, so
   * the field can reach 60.0000.
   */
  function SecondsFieldTicks(x: real): (field: nat)
    requires x >= 0.0
    ensures field <= 600000
  {
    var minutes := (x / 60.0).Floor;
    RoundTicks(x - 60.0 * minutes as real)
  }

  /**
   * `get_time_from_seconds` as written: `H:MM:SS.ssss` built from `divmod`
   * first and rounding second.
   */
  function TimeFromSeconds(x: real): string
    requires x >= 0.0
  {
    var minutes: nat := (x / 60.0).Floor;
    var field := SecondsFieldTicks(x);
    Timestamp(minutes / 60, minutes % 60, field / 10000, field % 10000)
  }

  /** `MainWindow.get_time_from_frame`: the timestamp of frame `frame` at `fps` frames per second. */
  function TimeFromFrame(frame: nat, fps: real): string
    requires fps > 0.0
  {
    TimeFromSeconds(frame as real / fps)
  }

  /** Hours, minutes, whole seconds and ten-thousandths of a tick count. */
  function HoursOf(t: nat): nat { t / 10000 / 60 / 60 }
  function MinutesOf(t: nat): nat { t / 10000 / 60 % 60 }
  function SecondsOf(t: nat): nat { t / 10000 % 60 }
  function FractionOf(t: nat): nat { t % 10000 }

  /** The `SS.ssss` seconds field. */
  function SecondsField(s: nat, f: nat): string
  {
    Pad(s, 2) + "." + Pad(f, 4)
  }

  /** `H:MM:SS.ssss` from its four fields. */
  function Timestamp(h: nat, m: nat, sec: nat, f: nat): string
  {
    JoinWith(':', [NatStr(h), Pad(m, 2), SecondsField(sec, f)])
  }

  /**
   * The timestamp of a whole number of ticks: hours unpadded, minutes two
   * digits, seconds a seven-character `SS.ssss` field.
   */
  function TimeFromTicks(t: nat): string
  {
    Timestamp(HoursOf(t), MinutesOf(t), SecondsOf(t), FractionOf(t))
  }

  lemma {:induction false} TickParts(t: nat)
    ensures t as real / 10000.0
         == HoursOf(t) as real * 3600.0 + MinutesOf(t) as real * 60.0
          + (SecondsOf(t) as real + FractionOf(t) as real / 10000.0)
  {
    var secs := t / 10000;
    var mins := secs / 60;
    assert t == 10000 * secs + FractionOf(t);
    assert secs == 60 * mins + SecondsOf(t);
    assert mins == 60 * HoursOf(t) + MinutesOf(t);
    assert t == 36000000 * HoursOf(t) + 600000 * MinutesOf(t) + 10000 * SecondsOf(t) + FractionOf(t);
  }

  lemma {:induction false} SecondsFieldShape(s: nat, f: nat)
    requires s < 60 && f < 10000
    ensures |Pad(s, 2)| == 2 && |Pad(f, 4)| == 4
    ensures DigitsValue(Pad(s, 2)) == s && DigitsValue(Pad(f, 4)) == f
  {
    assert Pow10(4) == 10000 && Pow10(2) == 100;
    PadValue(s, 2);
    PadValue(f, 4);
  }

  lemma {:induction false} SecondsFieldDigits(s: nat, f: nat)
    requires s < 60 && f < 10000
    ensures |SecondsField(s, f)| == 7 && ':' !in SecondsField(s, f)
  {
    SecondsFieldShape(s, f);
    NoColonInDigits(Pad(s, 2));
    NoColonInDigits(Pad(f, 4));
  }

  lemma {:induction false} SecondsFieldValue(s: nat, f: nat)
    requires s < 60 && f < 10000
    ensures ParseNumber(SecondsField(s, f)) == Some(s as real + f as real / 10000.0)
  {
    SecondsFieldShape(s, f);
    ParseDecimal(Pad(s, 2), Pad(f, 4));
    ShiftFour(f as real);
  }

  lemma {:induction false} TimestampPieces(h: nat, m: nat, sec: nat, f: nat)
    requires m < 60 && sec < 60 && f < 10000
    ensures Split(Timestamp(h, m, sec, f), ':') == [NatStr(h), Pad(m, 2), SecondsField(sec, f)]
  {
    var fields := [NatStr(h), Pad(m, 2), SecondsField(sec, f)];
    NoColonInDigits(fields[0]);
    NoColonInDigits(fields[1]);
    SecondsFieldDigits(sec, f);
    SplitJoin(':', fields);
  }

  lemma {:induction false} TickBounds(t: nat)
    ensures MinutesOf(t) < 60 && SecondsOf(t) < 60 && FractionOf(t) < 10000
  {
  }

  /**
   * A formatted tick count splits into exactly three pieces: minutes two
   * characters and below 60, seconds seven characters and below 60.
   */
  lemma {:induction false} TimestampFields(t: nat)
    ensures var parts := Split(TimeFromTicks(t), ':');
      && |parts| == 3 && |parts[1]| == 2 && |parts[2]| == 7
      && ParseNumber(parts[1]).Some? && 0.0 <= ParseNumber(parts[1]).value < 60.0
      && ParseNumber(parts[2]).Some? && 0.0 <= ParseNumber(parts[2]).value < 60.0
  {
    var m, sec, f := MinutesOf(t), SecondsOf(t), FractionOf(t);
    TickBounds(t);
    TimestampPieces(HoursOf(t), m, sec, f);
    SecondsFieldDigits(sec, f);
    SecondsFieldValue(sec, f);
    MinutesPiece(m);
  }

  lemma {:induction false} HoursPiece(h: nat)
    ensures ParseNumber(NatStr(h)) == Some(h as real)
  {
    NatStrValue(h);
    ParseDigits(NatStr(h));
  }

  lemma {:induction false} MinutesPiece(m: nat)
    requires m < 60
    ensures |Pad(m, 2)| == 2 && ParseNumber(Pad(m, 2)) == Some(m as real)
  {
    SecondsFieldShape(m, 0);
    ParseDigits(Pad(m, 2));
  }

  /** `text` splits into exactly three pieces that read as `x`, `y` and `z`. */
  predicate ThreeFields(text: string, x: real, y: real, z: real)
  {
    var p := Split(text, ':');
    |p| == 3 && ParseNumber(p[0]) == Some(x) && ParseNumber(p[1]) == Some(y) && ParseNumber(p[2]) == Some(z)
  }

  /** Text that splits into three readable pieces reads as `h*3600 + m*60 + s`. */
  lemma {:induction false} ThreeFieldsRead(text: string, x: real, y: real, z: real)
    requires ThreeFields(text, x, y, z)
    ensures SecondsFromTime(text) == Some(x * 3600.0 + y * 60.0 + z)
  {
  }

  /** The three pieces of a timestamp and what each of them reads as. */
  lemma {:induction false} TimestampFieldsRead(h: nat, m: nat, sec: nat, f: nat)
    requires m < 60 && sec < 60 && f < 10000
    ensures ThreeFields(Timestamp(h, m, sec, f), h as real, m as real, sec as real + f as real / 10000.0)
  {
    TimestampPieces(h, m, sec, f);
    HoursPiece(h);
    MinutesPiece(m);
    SecondsFieldValue(sec, f);
  }

  /** A timestamp reads back as the seconds its four fields stand for. */
  lemma {:induction false} TimestampRead(h: nat, m: nat, sec: nat, f: nat)
    requires m < 60 && sec < 60 && f < 10000
    ensures SecondsFromTime(Timestamp(h, m, sec, f))
         == Some(h as real * 3600.0 + m as real * 60.0 + (sec as real + f as real / 10000.0))
  {
    TimestampFieldsRead(h, m, sec, f);
    ThreeFieldsRead(Timestamp(h, m, sec, f), h as real, m as real, sec as real + f as real / 10000.0);
  }

  /** A formatted tick count reads back as the exact number of seconds. */
  lemma {:induction false} TimestampRoundTrip(t: nat)
    ensures SecondsFromTime(TimeFromTicks(t)) == Some(t as real / 10000.0)
  {
    TickBounds(t);
    TimestampRead(HoursOf(t), MinutesOf(t), SecondsOf(t), FractionOf(t));
    TickParts(t);
  }

  /**
   * Rounding the whole value first and splitting it afterwards: the timestamp
   * the display evidently intends, never showing a seconds field of 60.
   */
  function TimeFromFrameRounded(frame: nat, fps: real): string
    requires fps > 0.0
  {
    TimeFromTicks(RoundTicks(frame as real / fps))
  }

  /**
   * The rounded timestamp reads back within half a ten-thousandth of a second
   * of the frame's time, and its seconds field stays below 60.
   */
  lemma {:induction false} RoundedTimeReads(frame: nat, fps: real)
    requires fps > 0.0
    ensures var r := TimeFromFrameRounded(frame, fps);
      SecondsFromTime(r).Some? && -0.00005 < SecondsFromTime(r).value - frame as real / fps <= 0.00005
    ensures var parts := Split(TimeFromFrameRounded(frame, fps), ':');
      |parts| == 3 && ParseNumber(parts[2]).Some? && ParseNumber(parts[2]).value < 60.0
  {
    var t := RoundTicks(frame as real / fps);
    TimestampFields(t);
    TimestampRoundTrip(t);
  }

  /** `int(round(x))`, halves rounded up: the frame nearest to a typed time multiplied by the frame rate. */
  function NearestFrame(x: real): (n: int)
    ensures x - 0.5 < n as real <= x + 0.5
  {
    (x + 0.5).Floor
  }

  /** The nearest frame's time is within half a frame of the typed time. */
  lemma {:induction false} HalfFrame(n: int, sec: real, fps: real)
    requires fps > 0.0 && sec * fps - 0.5 < n as real <= sec * fps + 0.5
    ensures -(0.5 / fps) < n as real / fps - sec <= 0.5 / fps
  {
    var d := n as real - sec * fps;
    assert n as real / fps - sec == d / fps;
    assert d / fps - 0.5 / fps == (d - 0.5) / fps;
    assert d / fps + 0.5 / fps == (d + 0.5) / fps;
  }

  /**
   * A typed time snapped to its nearest frame: the timestamp then shown reads
   * back within half a frame, plus half a ten-thousandth of a second, of the
   * time that was typed.
   */
  lemma {:induction false} SnappedTimeNear(sec: real, fps: real, n: nat)
    requires fps > 0.0 && n == NearestFrame(sec * fps)
    ensures var r := SecondsFromTime(TimeFromFrameRounded(n, fps));
      r.Some? && sec - (0.5 / fps + 0.00005) < r.value <= sec + (0.5 / fps + 0.00005)
  {
    RoundedTimeReads(n, fps);
    HalfFrame(n, sec, fps);
  }

  /**
   * The frame `user_set_time` moves to for a typed time read as seconds: the
   * nearest frame. A time that does not read raises, and a frame before the
   * start is not read; both give no frame.
   */
  function FrameNear(typed: Option<real>, fps: real): Option<nat>
  {
    if typed.Some? && NearestFrame(typed.value * fps) >= 0 then Some(NearestFrame(typed.value * fps)) else None
  }

  /** The time shown for the frame a typed time snaps to lies within half a frame of the typed time. */
  lemma {:induction false} TypedTimeShown(typed: Option<real>, fps: real, frame: nat)
    requires fps > 0.0 && FrameNear(typed, fps) == Some(frame)
    ensures typed.Some?
    ensures var r := SecondsFromTime(TimeFromFrameRounded(frame, fps));
      r.Some? && typed.value - (0.5 / fps + 0.00005) < r.value <= typed.value + (0.5 / fps + 0.00005)
  {
    SnappedTimeNear(typed.value, fps, frame);
  }

  /**
   * Whenever the rounded seconds field stays below 60, the source's timestamp
   * is the rounded one.
   */
  lemma {:induction false} AgreesBelowSixty(x: real)
    requires x >= 0.0 && SecondsFieldTicks(x) < 600000
    ensures TimeFromSeconds(x) == TimeFromTicks(RoundTicks(x))
  {
    var minutes: nat := (x / 60.0).Floor;
    var field := SecondsFieldTicks(x);
    var t: nat := RoundTicks(x);
    assert x * 10000.0 + 0.5 - 600000.0 * minutes as real
        == (x - 60.0 * minutes as real) * 10000.0 + 0.5;
    assert field == t - 600000 * minutes;
    assert t / 10000 == 60 * minutes + field / 10000;
    assert t % 10000 == field % 10000;
    assert HoursOf(t) == minutes / 60 && MinutesOf(t) == minutes % 60;
    assert SecondsOf(t) == field / 10000 && FractionOf(t) == field % 10000;
  }

  /** 13379.99996666… seconds: minute 222, and a remainder that rounds up to 60.0000. */
  lemma {:induction false} LateFrameFields()
    ensures SecondsFieldTicks(401399999.0 / 30000.0) == 600000
    ensures TimeFromSeconds(401399999.0 / 30000.0) == Timestamp(3, 42, 60, 0)
  {
    var x := 401399999.0 / 30000.0;
    assert x / 60.0 == 401399999.0 / 1800000.0;
    assert (x / 60.0).Floor == 222;
    assert x - 60.0 * 222 as real == 1799999.0 / 30000.0;
    assert (1799999.0 / 30000.0 * 10000.0 + 0.5).Floor == 600000;
    assert 222 / 60 == 3 && 222 % 60 == 42 && 600000 / 10000 == 60 && 600000 % 10000 == 0;
  }

  lemma {:induction false} PaddedLiterals()
    ensures NatStr(3) == "3" && NatStr(0) == "0"
    ensures Pad(42, 2) == "42" && Pad(60, 2) == "60" && Pad(0, 2) == "00" && Pad(0, 4) == "0000"
  {
    assert NatStr(42) == "42";
    assert NatStr(60) == "60";
    assert Pad(0, 3) == "000";
  }

  lemma {:induction false} LateFrameText()
    ensures Timestamp(3, 42, 60, 0) == "3:42:60.0000"
  {
    PaddedLiterals();
    assert SecondsField(60, 0) == "60.0000";
    assert JoinWith(':', ["3", "42", "60.0000"]) == "3:42:60.0000";
  }

  /**
   * Frame 400999 of a 29.97 (30000/1001) frames-per-second video lies 0.0000333
   * seconds before 3:43:00; the source prints it as `3:42:60.0000`.
   */
  lemma {:induction false} SixtySecondsOnScreen()
    ensures SecondsFieldTicks(400999 as real / (30000.0 / 1001.0)) == 600000
    ensures TimeFromFrame(400999, 30000.0 / 1001.0) == "3:42:60.0000"
  {
    LateFrameTime();
    LateFrameFields();
    LateFrameText();
  }

  lemma {:induction false} LateFrameTime()
    ensures 400999 as real / (30000.0 / 1001.0) == 401399999.0 / 30000.0
  {
  }

  lemma {:induction false} ZeroText()
    ensures Timestamp(0, 0, 0, 0) == "0:00:00.0000"
  {
    PaddedLiterals();
    assert SecondsField(0, 0) == "00.0000";
    assert JoinWith(':', ["0", "00", "00.0000"]) == "0:00:00.0000";
  }

  /** Frame 0 prints as `0:00:00.0000` at every frame rate. */
  lemma {:induction false} FrameZero(fps: real)
    requires fps > 0.0
    ensures TimeFromFrame(0, fps) == "0:00:00.0000"
  {
    assert 0 as real / fps == 0.0;
    assert SecondsFieldTicks(0.0) == 0;
    ZeroText();
  }
}
