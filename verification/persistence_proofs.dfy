/** Properties of the partition state: what the operations keep, what the
    sequence ranges and accessors mean, how a flush handle survives later
    writes, and the behaviour the source's tests describe. */
module PersistenceProofs {
  import opened Common
  import opened Clock
  import opened Windows
  import opened Chains
  import opened Persistence

  /** Raising recorded maxima keeps a state valid. */
  lemma MarkSeenKeepsValid(pw: PersistenceWindows, checkpoint: Checkpoint)
    requires Valid(pw)
    ensures Valid(MarkSeenAndPersisted(pw, checkpoint))
  {
    var r := MarkSeenAndPersisted(pw, checkpoint);
    BoundedWeaken(WindowsOf(pw), pw.timeOfLastWrite, pw.maxSequenceNumbers, r.timeOfLastWrite, r.maxSequenceNumbers);
  }

  /** The last write time never goes back, whatever the clock reads. */
  lemma LastWriteNeverDecreases(pw: PersistenceWindows, now: Time, sequence: Option<Sequence>, rowCount: NonZero, minTime: Time, maxTime: Time)
    requires Valid(pw)
    ensures var r := Persistence.AddRange(pw, now, sequence, rowCount, minTime, maxTime);
      r.Ok? ==> r.value.timeOfLastWrite == Max(pw.timeOfLastWrite, now)
  {
  }

  /** After rotating a state with no flush handle outstanding, no window
      other than the persistable one is persistable: the closed queue stops
      at its first window that is not, and later windows were first
      written later still; the open window stays open only when it is
      younger than the closing period, which is at most the late arrival
      period. */
  lemma {:induction false} RotateLeavesNothingPersistable(pw: PersistenceWindows, now: Time)
    requires Valid(pw) && !pw.frozen
    ensures var r := RotateImpl(pw, now);
      && (forall i :: 0 <= i < |r.closed| ==> !IsPersistable(r.closed[i], now, pw.lateArrivalPeriod))
      && (r.open.Some? ==> !IsPersistable(r.open.value, now, pw.lateArrivalPeriod))
  {
    var r := RotateImpl(pw, now);
    var ws := WindowsOf(r);
    var k := |AsSeq(r.persistable)|;
    assert forall i :: 0 <= i < |r.closed| ==> ws[k + i] == r.closed[i];
    forall i | 0 <= i < |r.closed|
      ensures !IsPersistable(r.closed[i], now, pw.lateArrivalPeriod)
    {
      if i > 0 {
        assert Before(ws[k], ws[k + i]) && WellFormed(ws[k]);
        PersistableByAge(r.closed[0], r.closed[i], now, pw.lateArrivalPeriod, 0);
      }
    }
    if r.open.Some? {
      PersistableByAge(r.open.value, r.open.value, now, pw.lateArrivalPeriod, pw.closedWindowPeriod);
    }
  }

  /** A flush handle stays good for a state across every operation that
      can happen before the flush: writes, rotations, replayed checkpoints
      and a new late arrival period; and no second handle is granted. */
  lemma HandleSurvives(pw: PersistenceWindows, handle: FlushHandle, now: Time, sequence: Option<Sequence>, rowCount: NonZero, minTime: Time, maxTime: Time, checkpoint: Checkpoint, lateArrivalPeriod: Duration)
    requires Valid(pw) && HandleMatches(pw, handle)
    ensures var r := Persistence.AddRange(pw, now, sequence, rowCount, minTime, maxTime);
      r.Ok? ==> HandleMatches(r.value, handle)
    ensures HandleMatches(RotateImpl(pw, now), handle)
    ensures HandleMatches(MarkSeenAndPersisted(pw, checkpoint), handle)
    ensures HandleMatches(SetLateArrivalPeriod(pw, lateArrivalPeriod), handle)
    ensures FlushHandleImpl(pw, now).1.None?
  {
  }

  /** What `sequencer_numbers_inner` reports for a sequencer: no minimum
      exactly when no searched window holds it; otherwise the least number
      any searched window holds for it, which is at most the recorded
      maximum. No searched window holds a number above the recorded
      maximum, so the source's assertion holds. */
  lemma SequencerNumbersMeaning(pw: PersistenceWindows, skipPersistable: bool, id: nat)
    requires Valid(pw) && id in pw.maxSequenceNumbers
    ensures var ws := Searched(pw, skipPersistable);
      var flushTime := SearchFlushTime(pw, skipPersistable);
      var r := SequencerNumbersInner(pw, skipPersistable)[id];
      && r.max == pw.maxSequenceNumbers[id]
      && (r.min.None? <==> forall i :: 0 <= i < |ws| ==> !Holds(ws[i], id, flushTime))
      && (forall i :: 0 <= i < |ws| && Holds(ws[i], id, flushTime) ==> ws[i].sequencerNumbers[id].max <= r.max)
      && (r.min.Some? ==> r.min.value <= r.max)
      && (r.min.Some? ==> forall i :: 0 <= i < |ws| && Holds(ws[i], id, flushTime) ==>
            r.min.value <= ws[i].sequencerNumbers[id].min)
      && (r.min.Some? ==> exists i :: 0 <= i < |ws| && Holds(ws[i], id, flushTime) && r.min.value == ws[i].sequencerNumbers[id].min)
  {
    var all := WindowsOf(pw);
    var ws := Searched(pw, skipPersistable);
    var flushTime := SearchFlushTime(pw, skipPersistable);
    Slice(all, |all| - |ws|, |all|, pw.timeOfLastWrite, pw.maxSequenceNumbers);
    assert all[|all| - |ws|..] == ws;
    FirstMinFound(ws, id, flushTime);
    forall i | 0 <= i < |ws| && Holds(ws[i], id, flushTime)
      ensures ws[i].sequencerNumbers[id].max <= pw.maxSequenceNumbers[id]
    {
      assert Bounded(ws[i], pw.timeOfLastWrite, pw.maxSequenceNumbers);
    }
    if FirstMin(ws, id, flushTime).Some? {
      FirstMinLeast(ws, id, flushTime, pw.timeOfLastWrite, pw.maxSequenceNumbers);
    }
  }

  /** A sequencer with a recorded maximum but no window, such as one known
      only from a replayed checkpoint, is reported with no minimum. */
  lemma UnseenSequencerHasNoMinimum(pw: PersistenceWindows, id: nat)
    requires Valid(pw) && id in pw.maxSequenceNumbers
    requires forall i :: 0 <= i < |WindowsOf(pw)| ==> id !in WindowsOf(pw)[i].sequencerNumbers
    ensures SequencerNumbers(pw)[id] == OptionalMinMax(None, pw.maxSequenceNumbers[id])
  {
    SequencerNumbersMeaning(pw, false, id);
  }

  /** For one sequencer: flushing a handle that counted every closed window,
      with no open window, leaves as its first unpersisted window holding
      that sequencer the first one after the flushed rows. */
  lemma FlushedFirstMin(s: PersistenceWindows, h: FlushHandle, id: nat)
    requires Valid(s) && HandleMatches(s, h) && h.closedCount == |s.closed| && s.open.None?
    ensures FirstMin(WindowsOf(Flush(s, h)), id, None) == FirstMin(Searched(s, true), id, SearchFlushTime(s, true))
  {
    assert SearchFlushTime(s, true) == Some(h.timestamp);
    assert Searched(s, true) == s.closed by {
      assert WindowsOf(s)[1..] == s.closed;
    }
    var closed := FlushedClosed(s.closed, h.closedCount, h.timestamp);
    assert WindowsOf(Flush(s, h)) == closed;
    assert s.closed[h.closedCount..] == [] && s.closed[..h.closedCount] == s.closed;
    if h.timestamp < TIME_MAX {
      var newMin := h.timestamp + 1;
      assert CheckedAdd(h.timestamp, 1) == Some(newMin);
      assert closed == Trim(s.closed, newMin);
      FirstMinAfterTrim(s.closed, h.timestamp, newMin, id);
    } else {
      assert closed == [];
      FirstMinNothingNewer(s.closed, id);
    }
  }

  /** Flushing straight after taking a handle leaves exactly the sequence
      ranges the handle's checkpoint predicted. */
  lemma FlushMatchesCheckpoint(pw: PersistenceWindows, now: Time)
    requires Valid(pw)
    ensures var (s, handle) := FlushHandleImpl(pw, now);
      handle.Some? ==> SequencerNumbers(Flush(s, handle.value)) == HandleCheckpoint(handle.value).sequencerNumbers
  {
    var (s, handle) := FlushHandleImpl(pw, now);
    if handle.Some? {
      FlushedNumbers(s, handle.value);
    }
  }

  /** The same, for any state a handle was just taken from. */
  lemma FlushedNumbers(s: PersistenceWindows, h: FlushHandle)
    requires Valid(s) && HandleMatches(s, h) && h.closedCount == |s.closed| && s.open.None?
    requires h.sequencerNumbers == SequencerNumbersInner(s, true)
    ensures SequencerNumbers(Flush(s, h)) == HandleCheckpoint(h).sequencerNumbers
  {
    var a := SequencerNumbers(Flush(s, h));
    var b := h.sequencerNumbers;
    forall id | id in a
      ensures a[id] == b[id]
    {
      FlushedFirstMin(s, h, id);
    }
    assert a == b;
  }

  /** `persistable_row_count` stops at the first window that is not
      persistable; in a valid state that loses nothing: it is the row count
      of every persistable window. */
  lemma PersistableRowCountCountsAll(pw: PersistenceWindows, now: Time)
    requires Valid(pw)
    ensures PersistableRowCount(pw, now) == PersistableRows(WindowsOf(pw), now, pw.lateArrivalPeriod)
  {
    LeadingPersistableIsAll(WindowsOf(pw), now, pw.lateArrivalPeriod);
  }

  /** The row counts of some summaries, added up. */
  function SummedRows(s: seq<WriteSummary>): nat
  {
    if |s| == 0 then 0 else s[0].rowCount + SummedRows(s[1..])
  }

  lemma {:induction false} SummedRowsOf(ws: seq<Window>)
    ensures SummedRows(seq(|ws|, i requires 0 <= i < |ws| => Summary(ws[i]))) == TotalRows(ws)
  {
    if |ws| > 0 {
      var s := seq(|ws|, i requires 0 <= i < |ws| => Summary(ws[i]));
      SummedRowsOf(ws[1..]);
      assert s[1..] == seq(|ws[1..]|, i requires 0 <= i < |ws[1..]| => Summary(ws[1..][i]));
    }
  }

  /** The summaries of a valid state describe its windows in write order:
      each one's writes come no later than the next one's, each range runs
      low to high, no write is later than the last write, and together they
      count every row. */
  lemma SummariesInWriteOrder(pw: PersistenceWindows)
    requires Valid(pw)
    ensures var s := Summaries(pw);
      && (forall i, j :: 0 <= i < j < |s| ==> s[i].timeOfLastWrite <= s[j].timeOfFirstWrite)
      && (forall i :: 0 <= i < |s| ==> s[i].minTimestamp <= s[i].maxTimestamp && s[i].timeOfFirstWrite <= s[i].timeOfLastWrite)
      && (forall i :: 0 <= i < |s| ==> s[i].timeOfLastWrite <= pw.timeOfLastWrite && s[i].rowCount > 0)
      && SummedRows(s) == TotalRows(WindowsOf(pw))
  {
    var ws := WindowsOf(pw);
    var s := Summaries(pw);
    forall i, j | 0 <= i < j < |s|
      ensures s[i].timeOfLastWrite <= s[j].timeOfFirstWrite
    {
      assert Before(ws[i], ws[j]);
    }
    forall i | 0 <= i < |s|
      ensures s[i].minTimestamp <= s[i].maxTimestamp && s[i].timeOfFirstWrite <= s[i].timeOfLastWrite
      ensures s[i].timeOfLastWrite <= pw.timeOfLastWrite
    {
      assert WellFormed(ws[i]) && Bounded(ws[i], pw.timeOfLastWrite, pw.maxSequenceNumbers);
    }
    SummedRowsOf(ws);
    assert s == seq(|ws|, i requires 0 <= i < |ws| => Summary(ws[i]));
  }

  /** The oldest window of a valid state is the first written: its first
      write is the earliest of all and is what the age reports, the reported
      ranges are that same window's, and they lie below every later window's
      ranges for the same sequencer. */
  lemma MinimumUnpersistedMeaning(pw: PersistenceWindows)
    requires Valid(pw)
    ensures MinimumUnpersistedAge(pw).None? <==> IsEmpty(pw)
    ensures MinimumUnpersistedSequence(pw).None? <==> IsEmpty(pw)
    ensures var ws := WindowsOf(pw);
      MinimumUnpersistedAge(pw).Some? ==>
        forall i :: 0 <= i < |ws| ==> MinimumUnpersistedAge(pw).value <= ws[i].timeOfFirstWrite
    ensures var ws := WindowsOf(pw);
      MinimumUnpersistedSequence(pw).Some? ==> var m := MinimumUnpersistedSequence(pw).value;
        forall i, id :: 0 < i < |ws| && id in m && id in ws[i].sequencerNumbers ==>
          m[id].max < ws[i].sequencerNumbers[id].min
    ensures var ws := WindowsOf(pw);
      MinimumUnpersistedAge(pw).Some? ==>
        exists i :: 0 <= i < |ws| && MinimumUnpersistedAge(pw).value == ws[i].timeOfFirstWrite
          && MinimumUnpersistedSequence(pw) == Some(ws[i].sequencerNumbers)
  {
    var ws := WindowsOf(pw);
    if |ws| > 0 {
      assert MinimumUnpersistedAge(pw).value == ws[0].timeOfFirstWrite;
      forall i | 0 <= i < |ws|
        ensures ws[0].timeOfFirstWrite <= ws[i].timeOfFirstWrite
      {
        if i > 0 {
          assert Before(ws[0], ws[i]) && WellFormed(ws[0]);
        }
      }
      forall i, id | 0 < i < |ws| && id in ws[0].sequencerNumbers && id in ws[i].sequencerNumbers
        ensures ws[0].sequencerNumbers[id].max < ws[i].sequencerNumbers[id].min
      {
        assert Before(ws[0], ws[i]);
      }
    }
  }

  lemma {:induction false} LeastMinTimeIsLeast(ws: seq<Window>)
    requires |ws| > 0
    ensures forall i :: 0 <= i < |ws| ==> LeastMinTime(ws) <= ws[i].minTime
    ensures exists i :: 0 <= i < |ws| && LeastMinTime(ws) == ws[i].minTime
  {
    if |ws| > 1 {
      LeastMinTimeIsLeast(ws[1..]);
      assert forall i :: 1 <= i < |ws| ==> ws[i] == ws[1..][i - 1];
      var i :| 0 <= i < |ws[1..]| && LeastMinTime(ws[1..]) == ws[1..][i].minTime;
      assert ws[1..][i] == ws[i + 1];
      if LeastMinTime(ws) != ws[0].minTime {
        assert LeastMinTime(ws) == ws[i + 1].minTime;
      }
    }
    assert LeastMinTime(ws) == ws[0].minTime || exists i :: 0 <= i < |ws| && LeastMinTime(ws) == ws[i].minTime;
  }

  lemma {:induction false} GreatestMaxTimeIsGreatest(ws: seq<Window>)
    requires |ws| > 0
    ensures forall i :: 0 <= i < |ws| ==> ws[i].maxTime <= GreatestMaxTime(ws)
    ensures exists i :: 0 <= i < |ws| && GreatestMaxTime(ws) == ws[i].maxTime
  {
    if |ws| > 1 {
      GreatestMaxTimeIsGreatest(ws[1..]);
      assert forall i :: 1 <= i < |ws| ==> ws[i] == ws[1..][i - 1];
      var i :| 0 <= i < |ws[1..]| && GreatestMaxTime(ws[1..]) == ws[1..][i].maxTime;
      assert ws[1..][i] == ws[i + 1];
      if GreatestMaxTime(ws) != ws[0].maxTime {
        assert GreatestMaxTime(ws) == ws[i + 1].maxTime;
      }
    }
    assert GreatestMaxTime(ws) == ws[0].maxTime || exists i :: 0 <= i < |ws| && GreatestMaxTime(ws) == ws[i].maxTime;
  }

  /** `minimum_unpersisted_timestamp` and `maximum_unpersisted_timestamp`
      are the least oldest row and the greatest newest row over all
      windows, and `None` exactly when there are none. */
  lemma UnpersistedTimestampsMeaning(pw: PersistenceWindows)
    ensures MinimumUnpersistedTimestamp(pw).None? <==> IsEmpty(pw)
    ensures MaximumUnpersistedTimestamp(pw).None? <==> IsEmpty(pw)
    ensures var ws := WindowsOf(pw);
      MinimumUnpersistedTimestamp(pw).Some? ==> var t := MinimumUnpersistedTimestamp(pw).value;
        && (forall i :: 0 <= i < |ws| ==> t <= ws[i].minTime)
        && (exists i :: 0 <= i < |ws| && t == ws[i].minTime)
    ensures var ws := WindowsOf(pw);
      MaximumUnpersistedTimestamp(pw).Some? ==> var t := MaximumUnpersistedTimestamp(pw).value;
        && (forall i :: 0 <= i < |ws| ==> ws[i].maxTime <= t)
        && (exists i :: 0 <= i < |ws| && t == ws[i].maxTime)
  {
    var ws := WindowsOf(pw);
    if |ws| > 0 {
      LeastMinTimeIsLeast(ws);
      GreatestMaxTimeIsGreatest(ws);
    }
  }
}
