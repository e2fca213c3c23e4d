/** `flush` and `new` as the source writes them, each with an input that
    shows where it departs from what the rest of the code evidently
    intends, next to the corrected `Persistence.Flush` and
    `Persistence.New`. */
module PersistenceFindings {
  import opened Common
  import opened Clock
  import opened Windows
  import opened Chains
  import opened Persistence

  /** `flush` as written: when the timestamp is `Time::MAX` it clears every
      closed window, including those closed after the handle was taken. */
  function FlushAsWritten(pw: PersistenceWindows, handle: FlushHandle): (r: PersistenceWindows)
    requires Valid(pw) && HandleMatches(pw, handle)
    ensures r.persistable.None? && !r.frozen && r.open == pw.open
    ensures handle.timestamp < TIME_MAX ==> r == Flush(pw, handle)
    ensures handle.timestamp == TIME_MAX ==> r.closed == []
  {
    match CheckedAdd(handle.timestamp, 1)
    case Some(newMin) =>
      pw.(persistable := None, frozen := false,
          closed := Trim(pw.closed[..handle.closedCount], newMin) + pw.closed[handle.closedCount..])
    case None => pw.(persistable := None, frozen := false, closed := [])
  }

  /** With a `Time::MAX` handle and a window closed after it, the flush as
      written drops that window, whose rows were never persisted, while the
      corrected flush keeps it. */
  lemma FlushAsWrittenDropsLaterWindows(pw: PersistenceWindows, handle: FlushHandle)
    requires Valid(pw) && HandleMatches(pw, handle)
    requires handle.timestamp == TIME_MAX && handle.closedCount < |pw.closed|
    ensures FlushAsWritten(pw, handle).closed == []
    ensures Flush(pw, handle).closed == pw.closed[handle.closedCount..] != []
    ensures TotalRows(WindowsOf(FlushAsWritten(pw, handle))) < TotalRows(WindowsOf(Flush(pw, handle)))
  {
    var later := pw.closed[handle.closedCount..];
    var open := AsSeq(pw.open);
    assert WindowsOf(Flush(pw, handle)) == later + open;
    assert WindowsOf(FlushAsWritten(pw, handle)) == open;
    TotalRowsConcat(later, open);
  }

  const LATE: Duration := 30 * NANOS_PER_SEC

  /** The window of the write at time 0, covering every timestamp. */
  const W1: Window := Window(0, 0, 1, TIME_MIN, TIME_MAX, map[1 := MinMax(1, 1)])
  /** The windows of the writes at 30s and at 60s. */
  const W2: Window := Window(LATE, LATE, 1, 0, 0, map[1 := MinMax(2, 2)])
  const W3: Window := Window(2 * LATE, 2 * LATE, 1, 0, 0, map[1 := MinMax(3, 3)])

  /** A partition with a thirty-second late arrival period, created at time
      0, receives at time 0 one write covering every timestamp, as
      sequence 1. */
  lemma ScenarioFirstWrite()
    ensures Persistence.AddRange(Persistence.New(LATE, 0), 0, Some(Sequence(1, 1)), 1, TIME_MIN, TIME_MAX)
         == Ok(PersistenceWindows(None, false, [], Some(W1), LATE, LATE, 0, 0, map[1 := 1]))
  {
    var s0 := PersistenceWindows(None, false, [], None, LATE, LATE, 0, 0, map[]);
    assert Persistence.New(LATE, 0) == s0;
    var r := Persistence.AddRange(s0, 0, Some(Sequence(1, 1)), 1, TIME_MIN, TIME_MAX);
    assert r == Ok(PersistenceWindows(None, false, [], Some(W1), LATE, LATE, 0, 0, map[1 := 1])) by {
      assert !Stale(map[], Some(Sequence(1, 1)));
      assert RotateImpl(s0, 0) == s0;
      assert Record(map[], Some(Sequence(1, 1))) == map[1 := 1];
      assert OpenWith(None, Some(Sequence(1, 1)), 1, TIME_MIN, TIME_MAX, 0) == W1;
    }
  }

  /** At 30s that write's window is persistable, and a flush handle is
      taken: its timestamp is `Time::MAX` and it counts no closed window. */
  lemma ScenarioHandle()
    ensures var s1 := PersistenceWindows(None, false, [], Some(W1), LATE, LATE, 0, 0, map[1 := 1]);
      FlushHandleImpl(s1, LATE)
        == (PersistenceWindows(Some(W1), true, [], None, LATE, LATE, 0, 0, map[1 := 1]),
            Some(FlushHandle(0, TIME_MAX, map[1 := OptionalMinMax(None, 1)])))
  {
    var s1 := PersistenceWindows(None, false, [], Some(W1), LATE, LATE, 0, 0, map[1 := 1]);
    var moved := MoveOpen(s1);
    assert moved.closed == [W1] && moved.open.None?;
    assert CloseOpen(moved, LATE) == moved;
    assert IsPersistable(W1, LATE, LATE);
    assert [W1][1..] == [];
    assert Persist(None, [W1], LATE, LATE) == Persist(Some(W1), [], LATE, LATE) == (Some(W1), []);
    var frozen := PersistenceWindows(Some(W1), true, [], None, LATE, LATE, 0, 0, map[1 := 1]);
    assert RotateImpl(moved, LATE) == frozen.(frozen := false);
    assert Searched(frozen, true) == [];
    assert SequencerNumbersInner(frozen, true) == map[1 := OptionalMinMax(None, 1)];
  }

  /** At 30s, behind the handle, a write at timestamp 0 arrives as
      sequence 2 and opens a window. */
  lemma ScenarioSecondWrite()
    ensures var s2 := PersistenceWindows(Some(W1), true, [], None, LATE, LATE, 0, 0, map[1 := 1]);
      Persistence.AddRange(s2, LATE, Some(Sequence(1, 2)), 1, 0, 0)
        == Ok(PersistenceWindows(Some(W1), true, [], Some(W2), LATE, LATE, 0, LATE, map[1 := 2]))
  {
    var s2 := PersistenceWindows(Some(W1), true, [], None, LATE, LATE, 0, 0, map[1 := 1]);
    var r := Persistence.AddRange(s2, LATE, Some(Sequence(1, 2)), 1, 0, 0);
    assert r == Ok(PersistenceWindows(Some(W1), true, [], Some(W2), LATE, LATE, 0, LATE, map[1 := 2])) by {
      assert !Stale(map[1 := 1], Some(Sequence(1, 2)));
      assert RotateImpl(s2, LATE) == s2;
      assert Record(map[1 := 1], Some(Sequence(1, 2))) == map[1 := 2];
      assert OpenWith(None, Some(Sequence(1, 2)), 1, 0, 0, LATE) == W2;
    }
  }

  /** At 60s a third write, sequence 3, arrives; rotation closes the window
      of the second write, and the frozen persistable window does not
      absorb it. */
  lemma ScenarioThirdWrite()
    ensures var s3 := PersistenceWindows(Some(W1), true, [], Some(W2), LATE, LATE, 0, LATE, map[1 := 2]);
      Persistence.AddRange(s3, 2 * LATE, Some(Sequence(1, 3)), 1, 0, 0)
        == Ok(PersistenceWindows(Some(W1), true, [W2], Some(W3), LATE, LATE, 0, 2 * LATE, map[1 := 3]))
  {
    var s3 := PersistenceWindows(Some(W1), true, [], Some(W2), LATE, LATE, 0, LATE, map[1 := 2]);
    var r := Persistence.AddRange(s3, 2 * LATE, Some(Sequence(1, 3)), 1, 0, 0);
    assert r == Ok(PersistenceWindows(Some(W1), true, [W2], Some(W3), LATE, LATE, 0, 2 * LATE, map[1 := 3])) by {
      assert !Stale(map[1 := 2], Some(Sequence(1, 3)));
      assert IsCloseable(W2, 2 * LATE, LATE);
      assert RotateImpl(s3, 2 * LATE) == s3.(closed := [W2], open := None);
      assert Record(map[1 := 2], Some(Sequence(1, 3))) == map[1 := 3];
      assert OpenWith(None, Some(Sequence(1, 3)), 1, 0, 0, 2 * LATE) == W3;
    }
  }

  /** Flushing the handle in that state: the flush as written forgets the
      window of sequence 2, so the state then reports 3 as the first
      unpersisted number of sequencer 1 and a restart would skip the
      unpersisted write 2. The corrected flush keeps that window and
      reports 2. */
  lemma ScenarioLosesWrite()
    ensures var s4 := PersistenceWindows(Some(W1), true, [W2], Some(W3), LATE, LATE, 0, 2 * LATE, map[1 := 3]);
      var handle := FlushHandle(0, TIME_MAX, map[1 := OptionalMinMax(None, 1)]);
      && Valid(s4) && HandleMatches(s4, handle)
      && SequencerNumbers(FlushAsWritten(s4, handle))[1].min == Some(3)
      && SequencerNumbers(Flush(s4, handle))[1].min == Some(2)
  {
    ScenarioFirstWrite();
    ScenarioHandle();
    ScenarioSecondWrite();
    ScenarioThirdWrite();
    var s4 := PersistenceWindows(Some(W1), true, [W2], Some(W3), LATE, LATE, 0, 2 * LATE, map[1 := 3]);
    var handle := FlushHandle(0, TIME_MAX, map[1 := OptionalMinMax(None, 1)]);
    assert WindowsOf(FlushAsWritten(s4, handle)) == [W3];
    assert Flush(s4, handle).closed == [W2];
    assert WindowsOf(Flush(s4, handle)) == [W2, W3];
  }

  /** `new` as written: it divides the late arrival period's whole seconds
      by the closing period's to size the closed queue, which panics when
      the closing period is under a second. */
  function NewAsWritten(lateArrivalPeriod: Duration, now: Time): (r: Option<PersistenceWindows>)
    ensures r.Some? ==> r.value == Persistence.New(lateArrivalPeriod, now)
  {
    var closedWindowPeriod := Min(lateArrivalPeriod, DEFAULT_CLOSED_WINDOW);
    if AsSecs(closedWindowPeriod) == 0 then None
    else Some(Persistence.New(lateArrivalPeriod, now))
  }

  /** The panic happens exactly for late arrival periods under a second,
      such as 0 or 500ms, for which the corrected `new` still yields a valid
      empty state. */
  lemma NewAsWrittenPanicsBelowOneSecond(lateArrivalPeriod: Duration, now: Time)
    ensures NewAsWritten(lateArrivalPeriod, now).None? <==> lateArrivalPeriod < NANOS_PER_SEC
    ensures Valid(Persistence.New(lateArrivalPeriod, now)) && IsEmpty(Persistence.New(lateArrivalPeriod, now))
  {
    var closedWindowPeriod := Min(lateArrivalPeriod, DEFAULT_CLOSED_WINDOW);
    if lateArrivalPeriod >= NANOS_PER_SEC {
      assert closedWindowPeriod >= NANOS_PER_SEC;
      assert AsSecs(closedWindowPeriod) >= 1;
    } else {
      assert closedWindowPeriod == lateArrivalPeriod;
    }
  }
}
