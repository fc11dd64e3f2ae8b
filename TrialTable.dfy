/**
 * The trial table: one row per trial, whose cells hold the trial number and
 * the start and end timestamps as text. `trialCount` is kept beside it and,
 * while the table is edited, is one more than the number of rows (the number
 * the next trial will get). Qt's table ignores an `insertRow`, `removeRow` or
 * `setItem` whose row is out of range; the functions here do the same.
 */
module TrialTable {
  import opened Text

  /** The texts of a row's Trial, Start and End cells. */
  datatype Row = Row(trial: string, start: string, end: string)

  /** The table together with the `trialCount` field. */
  datatype Table = Table(rows: seq<Row>, count: int)

  // ---------------------------------------------------------------- Qt table primitives

  /** `insertRow(i)` followed by `setItem` on each of its cells. */
  function InsertAt(rows: seq<Row>, i: int, r: Row): (t: seq<Row>)
    ensures 0 <= i <= |rows| ==>
              |t| == |rows| + 1 && t[i] == r && t[..i] == rows[..i] && t[i + 1..] == rows[i..]
    ensures !(0 <= i <= |rows|) ==> t == rows
  {
    if 0 <= i <= |rows| then rows[..i] + [r] + rows[i..] else rows
  }

  /** `removeRow(i)`. */
  function RemoveAt(rows: seq<Row>, i: int): (t: seq<Row>)
    ensures 0 <= i < |rows| ==> |t| == |rows| - 1 && t[..i] == rows[..i] && t[i..] == rows[i + 1..]
    ensures !(0 <= i < |rows|) ==> t == rows
  {
    if 0 <= i < |rows| then rows[..i] + rows[i + 1..] else rows
  }

  /** `setItem(i, 1, …)`: the Start cell of row `i` gets `text`. */
  function SetStart(rows: seq<Row>, i: int, text: string): (t: seq<Row>)
    ensures |t| == |rows|
    ensures forall k :: 0 <= k < |t| ==> t[k] == if k == i then rows[k].(start := text) else rows[k]
  {
    if 0 <= i < |rows| then rows[i := rows[i].(start := text)] else rows
  }

  /** `setItem(i, 2, …)`: the End cell of row `i` gets `text`. */
  function SetEnd(rows: seq<Row>, i: int, text: string): (t: seq<Row>)
    ensures |t| == |rows|
    ensures forall k :: 0 <= k < |t| ==> t[k] == if k == i then rows[k].(end := text) else rows[k]
  {
    if 0 <= i < |rows| then rows[i := rows[i].(end := text)] else rows
  }

  /**
   * The renumbering loop of `trial_rem`: the first `n` rows are numbered 1, 2,
   * and so on. A row past the end of the table has no item, so the loop stops
   * there with an exception; every existing row up to it has been renumbered.
   */
  function Renumbered(rows: seq<Row>, n: int): (t: seq<Row>)
    ensures |t| == |rows|
  {
    seq(|rows|, k requires 0 <= k < |rows| => if k < n then rows[k].(trial := NatStr(k + 1)) else rows[k])
  }

  // ---------------------------------------------------------------- numbering

  /** Row `k` is trial `k + 1`. */
  predicate WellNumbered(rows: seq<Row>)
  {
    forall k :: 0 <= k < |rows| ==> rows[k].trial == NatStr(k + 1)
  }

  /** The state the add and remove buttons keep: numbered rows and a count one past them. */
  predicate Consistent(t: Table)
  {
    t.count == |t.rows| + 1 && WellNumbered(t.rows)
  }

  /** A blank row for trial `n`: `setData(DisplayRole, n)` shows `str(n)`. */
  function BlankRow(n: int): Row
  {
    Row(IntStr(n), "", "")
  }

  /** `trial_add`: a blank row inserted at index `trialCount - 1`, numbered `trialCount`. */
  function AddTrial(t: Table): (u: Table)
    ensures u.count == t.count + 1
  {
    Table(InsertAt(t.rows, t.count - 1, BlankRow(t.count)), t.count + 1)
  }

  /**
   * `trial_rem`: unless only the placeholder count is left, remove the selected
   * row, decrement the count and renumber the first `count - 1` rows.
   */
  function RemoveTrial(t: Table, selected: int): (u: Table)
    ensures t.count <= 1 ==> u == t
    ensures t.count > 1 ==> u.count == t.count - 1
  {
    if t.count > 1 then Table(Renumbered(RemoveAt(t.rows, selected), t.count - 2), t.count - 1)
    else t
  }

  /** Adding a trial appends a blank row with the next number and keeps the table consistent. */
  lemma {:induction false} AddKeepsConsistent(t: Table)
    requires Consistent(t)
    ensures AddTrial(t).rows == t.rows + [Row(NatStr(t.count), "", "")]
    ensures Consistent(AddTrial(t))
  {
    var u := AddTrial(t);
    assert t.rows[..|t.rows|] == t.rows;
    assert u.rows == t.rows + [BlankRow(t.count)];
    forall k | 0 <= k < |u.rows| ensures u.rows[k].trial == NatStr(k + 1) {
      if k < |t.rows| {
        assert u.rows[k] == t.rows[k];
      }
    }
  }

  /**
   * Removing the selected row, when the selection is a row of the table,
   * drops exactly that row, keeps every other row's times in order and leaves
   * the table consistent.
   */
  lemma {:induction false} RemoveKeepsConsistent(t: Table, selected: int)
    requires Consistent(t) && 0 <= selected < |t.rows|
    ensures Consistent(RemoveTrial(t, selected))
    ensures |RemoveTrial(t, selected).rows| == |t.rows| - 1
    ensures forall k :: 0 <= k < |t.rows| - 1 ==>
      var was := t.rows[if k < selected then k else k + 1];
      RemoveTrial(t, selected).rows[k].start == was.start && RemoveTrial(t, selected).rows[k].end == was.end
  {
    var r := RemoveAt(t.rows, selected);
    var u := RemoveTrial(t, selected);
    assert u.rows == Renumbered(r, |r|);
    forall k | 0 <= k < |r| ensures r[k] == t.rows[if k < selected then k else k + 1] {
      if k < selected {
        assert r[k] == r[..selected][k];
      } else {
        assert r[k] == r[selected..][k - selected];
      }
    }
  }

  /**
   * As written, `trial_rem` with a selection that is no longer a row (the last
   * row was removed while selected) removes nothing but still decrements the
   * count: the count no longer matches the rows.
   */
  lemma {:induction false} StaleSelectionLosesCount(t: Table, selected: int)
    requires Consistent(t) && |t.rows| > 0 && selected >= |t.rows|
    ensures RemoveTrial(t, selected).rows == t.rows
    ensures RemoveTrial(t, selected).count == |t.rows|
    ensures !Consistent(RemoveTrial(t, selected))
  {
    var u := RemoveTrial(t, selected);
    forall k | 0 <= k < |t.rows| ensures u.rows[k] == t.rows[k] {
      if k < |t.rows| - 1 {
        assert t.rows[k].trial == NatStr(k + 1);
      }
    }
  }

  /**
   * The clicks that show it: add two trials, select the second, remove it
   * twice, add one. The table then shows trial 1 twice.
   */
  lemma {:induction false} StaleSelectionExample()
    ensures var t1 := AddTrial(AddTrial(Table([], 1)));
            var t2 := RemoveTrial(RemoveTrial(t1, 1), 1);
            AddTrial(t2).rows == [Row("1", "", ""), Row("1", "", "")]
  {
    var one := Row("1", "", "");
    var two := Row("2", "", "");
    assert NatStr(1) == "1" && NatStr(2) == "2";
    assert AddTrial(Table([], 1)) == Table([one], 2);
    assert AddTrial(Table([one], 2)).rows == [one] + [two];
    assert RemoveAt([one, two], 1) == [one];
    assert Renumbered([one], 1) == [one];
    assert RemoveTrial(Table([one, two], 3), 1) == Table([one], 2);
    assert RemoveTrial(Table([one], 2), 1) == Table([one], 1);
    assert AddTrial(Table([one], 1)).rows == [one] + [one];
  }

  /** `trial_rem` as it evidently should be: a selection outside the table removes nothing. */
  function RemoveSelected(t: Table, selected: int): (u: Table)
  {
    if t.count > 1 && 0 <= selected < |t.rows| then RemoveTrial(t, selected) else t
  }

  /** The corrected removal keeps the table consistent whatever row is selected. */
  lemma {:induction false} RemoveSelectedKeepsConsistent(t: Table, selected: int)
    requires Consistent(t)
    ensures Consistent(RemoveSelected(t, selected))
    ensures 0 <= selected < |t.rows| ==> |RemoveSelected(t, selected).rows| == |t.rows| - 1
    ensures !(0 <= selected < |t.rows|) ==> RemoveSelected(t, selected) == t
  {
    if 0 <= selected < |t.rows| {
      RemoveKeepsConsistent(t, selected);
    }
  }

  /**
   * `split_video` sets the count to the number of rows. Adding a trial after
   * an export then inserts the new row before the last one, with the last
   * one's number: two rows carry the same number.
   */
  lemma {:induction false} AddAfterExportRepeatsNumber(t: Table)
    requires Consistent(t) && |t.rows| > 0
    ensures var u := AddTrial(Table(t.rows, |t.rows|));
      |u.rows| == |t.rows| + 1 && u.rows[|t.rows| - 1].trial == u.rows[|t.rows|].trial
      && !WellNumbered(u.rows)
  {
    var n := |t.rows|;
    var u := AddTrial(Table(t.rows, n));
    assert u.rows[n - 1] == BlankRow(n);
    assert u.rows[n] == u.rows[n..][0] == t.rows[n - 1];
    assert t.rows[n - 1].trial == NatStr(n);
    assert u.rows[n].trial != NatStr(n + 1) by {
      NatStrRoundTrip(n);
      NatStrRoundTrip(n + 1);
    }
  }

  // ---------------------------------------------------------------- validation before export

  /** Which of a row's cells `split_video` highlights: the empty ones. */
  datatype Marks = Marks(trial: bool, start: bool, end: bool)

  predicate Complete(r: Row)
  {
    r.trial != "" && r.start != "" && r.end != ""
  }

  function MarksOf(r: Row): (m: Marks)
    ensures !m.trial && !m.start && !m.end <==> Complete(r)
  {
    Marks(r.trial == "", r.start == "", r.end == "")
  }

  predicate AllComplete(rows: seq<Row>)
  {
    forall k :: 0 <= k < |rows| ==> Complete(rows[k])
  }

  /**
   * The validation loop of `split_video`: every row is visited, each empty cell
   * is marked, and the trials are valid exactly when no cell is empty.
   */
  method CheckTrials(rows: seq<Row>) returns (valid: bool, marks: seq<Marks>)
    ensures valid <==> AllComplete(rows)
    ensures |marks| == |rows|
    ensures forall k :: 0 <= k < |rows| ==> marks[k] == MarksOf(rows[k])
  {
    valid := true;
    marks := [];
    var row := 0;
    while row < |rows|
      invariant 0 <= row <= |rows|
      invariant |marks| == row
      invariant forall k :: 0 <= k < row ==> marks[k] == MarksOf(rows[k])
      invariant valid <==> AllComplete(rows[..row])
    {
      var m := Marks(false, false, false);
      if rows[row].trial == "" {
        valid := false;
        m := m.(trial := true);
      }
      if rows[row].start == "" {
        valid := false;
        m := m.(start := true);
      }
      if rows[row].end == "" {
        valid := false;
        m := m.(end := true);
      }
      marks := marks + [m];
      assert rows[..row + 1] == rows[..row] + [rows[row]];
      row := row + 1;
    }
    assert rows[..row] == rows;
  }

  // ---------------------------------------------------------------- clearing before a load

  /**
   * The clearing loop of `load_settings` as written: for `i` from `lo` up to
   * (not including) `hi`, remove the row at index `i` of the shrinking table.
   */
  function ClearFrom(rows: seq<Row>, lo: int, hi: int): (t: seq<Row>)
    decreases hi - lo
  {
    if lo >= hi then rows else ClearFrom(RemoveAt(rows, lo), lo + 1, hi)
  }

  /** The rows at odd positions of `s`: the second, the fourth, … */
  function OddPositions(s: seq<Row>): (t: seq<Row>)
    ensures |t| == |s| / 2
    ensures forall k :: 0 <= k < |t| ==> t[k] == s[2 * k + 1]
  {
    if |s| < 2 then [] else [s[1]] + OddPositions(s[2..])
  }

  /** Removing at indices the table no longer reaches changes nothing. */
  lemma {:induction false} ClearPastEnd(rows: seq<Row>, lo: int, hi: int)
    requires lo >= |rows|
    ensures ClearFrom(rows, lo, hi) == rows
    decreases hi - lo
  {
    if lo < hi {
      ClearPastEnd(rows, lo + 1, hi);
    }
  }

  /**
   * The loop has kept the rows before index `|kept|` and removes every
   * second row of what follows.
   */
  lemma {:induction false} ClearKeepsAlternate(kept: seq<Row>, rest: seq<Row>, hi: int)
    requires 2 * (hi - |kept|) >= |rest|
    ensures ClearFrom(kept + rest, |kept|, hi) == kept + OddPositions(rest)
    decreases |rest|
  {
    if |rest| == 0 {
      assert kept + rest == kept;
      ClearPastEnd(kept, |kept|, hi);
    } else if |rest| == 1 {
      RemoveAfterKept(kept, rest);
      ClearPastEnd(kept, |kept| + 1, hi);
    } else {
      RemoveAfterKept(kept, rest);
      Regroup(kept, rest);
      ClearKeepsAlternate(kept + [rest[1]], rest[2..], hi);
    }
  }

  /** One step of the loop, seen as moving the second remaining row into `kept`. */
  lemma {:induction false} Regroup(kept: seq<Row>, rest: seq<Row>)
    requires |rest| > 1
    ensures kept + rest[1..] == (kept + [rest[1]]) + rest[2..]
    ensures (kept + [rest[1]]) + OddPositions(rest[2..]) == kept + OddPositions(rest)
  {
    assert rest[1..] == [rest[1]] + rest[2..];
  }

  /** Removing the first row after `kept` leaves `kept` and the rest of the rows. */
  lemma {:induction false} RemoveAfterKept(kept: seq<Row>, rest: seq<Row>)
    requires |rest| > 0
    ensures RemoveAt(kept + rest, |kept|) == kept + rest[1..]
    ensures |rest| == 1 ==> RemoveAt(kept + rest, |kept|) == kept
  {
    var s := kept + rest;
    assert s[..|kept|] == kept;
    assert s[|kept| + 1..] == rest[1..];
  }

  /**
   * As written, the clearing loop run on a consistent table leaves the rows at
   * even positions (the first, the third, …) in place: a table of one or more
   * rows is never emptied.
   */
  lemma {:induction false} ClearLeavesEvenRows(t: Table)
    requires Consistent(t) && |t.rows| > 0
    ensures ClearFrom(t.rows, 1, t.count) == [t.rows[0]] + OddPositions(t.rows[1..])
    ensures |ClearFrom(t.rows, 1, t.count)| == (|t.rows| + 1) / 2
    ensures ClearFrom(t.rows, 1, t.count)[0] == t.rows[0]
  {
    assert t.rows == [t.rows[0]] + t.rows[1..];
    ClearKeepsAlternate([t.rows[0]], t.rows[1..], t.count);
  }

  /** Clearing as evidently intended: `removeRow(0)` until no row is left. */
  function ClearAll(rows: seq<Row>): (t: seq<Row>)
    ensures t == []
    decreases |rows|
  {
    if |rows| == 0 then rows else ClearAll(RemoveAt(rows, 0))
  }
}
