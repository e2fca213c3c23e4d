/** Sequences of windows, oldest first, as `PersistenceWindows::windows`
    lists them: the order they keep, the bounds they respect, and the
    truncation, filtering and searches the partition state applies to
    them. */
module Chains {
  import opened Common
  import opened Clock
  import opened Windows

  /** Each window is written before every later one. */
  predicate Ordered(ws: seq<Window>)
  {
    forall i, j :: 0 <= i < j < |ws| ==> Before(ws[i], ws[j])
  }

  predicate AllWellFormed(ws: seq<Window>)
  {
    forall i :: 0 <= i < |ws| ==> WellFormed(ws[i])
  }

  /** Well-formed windows in write order. */
  predicate Chain(ws: seq<Window>)
  {
    AllWellFormed(ws) && Ordered(ws)
  }

  /** `w` is written before every window of `ws`. */
  predicate BeforeAll(w: Window, ws: seq<Window>)
  {
    forall j :: 0 <= j < |ws| ==> Before(w, ws[j])
  }

  /** No write of `w` is later than `lastWrite`, and every sequencer it saw
      has a recorded maximum at least as large as the window's. */
  predicate Bounded(w: Window, lastWrite: int, maxSequence: map<nat, nat>)
  {
    && w.timeOfLastWrite <= lastWrite
    && forall id :: id in w.sequencerNumbers ==>
         id in maxSequence && w.sequencerNumbers[id].max <= maxSequence[id]
  }

  predicate AllBounded(ws: seq<Window>, lastWrite: int, maxSequence: map<nat, nat>)
  {
    forall i :: 0 <= i < |ws| ==> Bounded(ws[i], lastWrite, maxSequence)
  }

  /** `larger` records every sequencer of `smaller`, with a maximum at
      least as large. */
  predicate Dominates(larger: map<nat, nat>, smaller: map<nat, nat>)
  {
    forall id :: id in smaller ==> id in larger && smaller[id] <= larger[id]
  }

  lemma BoundedWeaken(ws: seq<Window>, lastWrite: int, maxSequence: map<nat, nat>, lastWrite': int, maxSequence': map<nat, nat>)
    requires AllBounded(ws, lastWrite, maxSequence)
    requires lastWrite <= lastWrite' && Dominates(maxSequence', maxSequence)
    ensures AllBounded(ws, lastWrite', maxSequence')
  {
    forall i | 0 <= i < |ws|
      ensures Bounded(ws[i], lastWrite', maxSequence')
    {
      assert Bounded(ws[i], lastWrite, maxSequence);
    }
  }

  /** Two runs of windows within bounds are, together, within them. */
  lemma BoundedConcat(a: seq<Window>, b: seq<Window>, lastWrite: int, maxSequence: map<nat, nat>)
    requires AllBounded(a, lastWrite, maxSequence) && AllBounded(b, lastWrite, maxSequence)
    ensures AllBounded(a + b, lastWrite, maxSequence)
  {
    forall i | 0 <= i < |a| + |b|
      ensures Bounded((a + b)[i], lastWrite, maxSequence)
    {
      if i < |a| {
        assert (a + b)[i] == a[i];
      } else {
        assert (a + b)[i] == b[i - |a|];
      }
    }
  }

  /** Any stretch of a chain is a chain, within the same bounds. */
  lemma Slice(ws: seq<Window>, i: nat, j: nat, lastWrite: int, maxSequence: map<nat, nat>)
    requires i <= j <= |ws|
    ensures Chain(ws) ==> Chain(ws[i..j])
    ensures AllBounded(ws, lastWrite, maxSequence) ==> AllBounded(ws[i..j], lastWrite, maxSequence)
  {
    var s := ws[i..j];
    assert forall k :: 0 <= k < |s| ==> s[k] == ws[i + k];
    if Chain(ws) {
      forall a, b | 0 <= a < b < |s|
        ensures Before(s[a], s[b])
      {
        assert s[a] == ws[i + a] && s[b] == ws[i + b];
      }
    }
  }

  /** A well-formed window written before all of a chain can head it. */
  lemma Cons(w: Window, ws: seq<Window>)
    requires WellFormed(w) && BeforeAll(w, ws) && Chain(ws)
    ensures Chain([w] + ws)
  {
    var s := [w] + ws;
    assert forall k :: 1 <= k < |s| ==> s[k] == ws[k - 1];
  }

  /** A well-formed window written after all of a chain can end it. */
  lemma Snoc(ws: seq<Window>, w: Window)
    requires Chain(ws) && WellFormed(w)
    requires forall i :: 0 <= i < |ws| ==> Before(ws[i], w)
    ensures Chain(ws + [w])
  {
    var s := ws + [w];
    assert forall k :: 0 <= k < |ws| ==> s[k] == ws[k];
  }

  /** The two oldest windows of a chain may be folded together; what
      results is still a chain. */
  lemma MergeHead(ws: seq<Window>)
    requires Chain(ws) && |ws| >= 2
    ensures Before(ws[0], ws[1]) && WellFormed(ws[1])
    ensures Chain([AddWindow(ws[0], ws[1])] + ws[2..])
  {
    assert Before(ws[0], ws[1]) && WellFormed(ws[0]) && WellFormed(ws[1]);
    var m := AddWindow(ws[0], ws[1]);
    AddWindowWellFormed(ws[0], ws[1]);
    var rest := ws[2..];
    Slice(ws, 2, |ws|, 0, map[]);
    forall j | 0 <= j < |rest|
      ensures Before(m, rest[j])
    {
      assert rest[j] == ws[j + 2];
      assert Before(ws[0], ws[j + 2]) && Before(ws[1], ws[j + 2]);
      AddWindowOrder(ws[0], ws[1], rest[j]);
    }
    Cons(m, rest);
  }

  /** Folding the two oldest windows keeps every bound both satisfied. */
  lemma MergeHeadBounded(ws: seq<Window>, lastWrite: int, maxSequence: map<nat, nat>)
    requires Chain(ws) && |ws| >= 2 && AllBounded(ws, lastWrite, maxSequence)
    ensures AllBounded([AddWindow(ws[0], ws[1])] + ws[2..], lastWrite, maxSequence)
  {
    MergeHead(ws);
    var m := AddWindow(ws[0], ws[1]);
    assert Bounded(ws[0], lastWrite, maxSequence) && Bounded(ws[1], lastWrite, maxSequence);
    assert Bounded(m, lastWrite, maxSequence) by {
      forall id | id in m.sequencerNumbers
        ensures id in maxSequence && m.sequencerNumbers[id].max <= maxSequence[id]
      {
        if id in ws[1].sequencerNumbers {
          assert m.sequencerNumbers[id].max == ws[1].sequencerNumbers[id].max;
        }
      }
    }
    var s := [m] + ws[2..];
    assert forall k :: 1 <= k < |s| ==> s[k] == ws[k + 1];
  }

  /** The total row count of a sequence of windows. */
  function TotalRows(ws: seq<Window>): nat
  {
    if |ws| == 0 then 0 else ws[0].rowCount + TotalRows(ws[1..])
  }

  lemma {:induction false} TotalRowsConcat(a: seq<Window>, b: seq<Window>)
    ensures TotalRows(a + b) == TotalRows(a) + TotalRows(b)
  {
    if |a| == 0 {
      assert a + b == b;
    } else {
      assert (a + b)[0] == a[0] && (a + b)[1..] == a[1..] + b;
      TotalRowsConcat(a[1..], b);
    }
  }

  /** Folding the two oldest windows keeps the total row count. */
  lemma MergeHeadRows(ws: seq<Window>)
    requires Chain(ws) && |ws| >= 2
    ensures TotalRows([AddWindow(ws[0], ws[1])] + ws[2..]) == TotalRows(ws)
  {
    MergeHead(ws);
    assert ([AddWindow(ws[0], ws[1])] + ws[2..])[1..] == ws[2..];
    assert ws[1..][1..] == ws[2..];
    assert TotalRows(ws) == ws[0].rowCount + TotalRows(ws[1..]);
    assert TotalRows(ws[1..]) == ws[1].rowCount + TotalRows(ws[2..]);
  }

  /** A window kept by a flush: its oldest row raised to at least `newMin`. */
  function Raise(w: Window, newMin: Time): Window
  {
    w.(minTime := Max(w.minTime, newMin))
  }

  /** `flush`'s truncation of the windows it covers: each window whose
      newest row is at or after `newMin` is kept with its oldest row
      raised to at least `newMin`; the others are dropped. */
  function Trim(ws: seq<Window>, newMin: Time): (r: seq<Window>)
    ensures |r| <= |ws|
  {
    if |ws| == 0 then []
    else
      var w := ws[0];
      (if w.maxTime >= newMin then [Raise(w, newMin)] else []) + Trim(ws[1..], newMin)
  }

  /** Every window `Trim` keeps has its row timestamp range starting at
      `newMin` or later. */
  lemma {:induction false} TrimRaises(ws: seq<Window>, newMin: Time)
    ensures forall k :: 0 <= k < |Trim(ws, newMin)| ==>
      Trim(ws, newMin)[k].minTime >= newMin && Trim(ws, newMin)[k].maxTime >= newMin
  {
    if |ws| > 0 {
      var w := ws[0];
      var head := if w.maxTime >= newMin then [Raise(w, newMin)] else [];
      TrimRaises(ws[1..], newMin);
      var t := Trim(ws, newMin);
      assert t == head + Trim(ws[1..], newMin);
      assert forall k :: |head| <= k < |t| ==> t[k] == Trim(ws[1..], newMin)[k - |head|];
    }
  }

  /** Truncation works window by window: truncating a concatenation
      truncates each part, so the kept windows stay in their order. */
  lemma {:induction false} TrimConcat(a: seq<Window>, b: seq<Window>, newMin: Time)
    ensures Trim(a + b, newMin) == Trim(a, newMin) + Trim(b, newMin)
  {
    if |a| == 0 {
      assert a + b == b;
    } else {
      var h := if a[0].maxTime >= newMin then [Raise(a[0], newMin)] else [];
      assert (a + b)[0] == a[0];
      assert (a + b)[1..] == a[1..] + b;
      assert Trim(a + b, newMin) == h + Trim(a[1..] + b, newMin);
      TrimConcat(a[1..], b, newMin);
      assert h + (Trim(a[1..], newMin) + Trim(b, newMin)) == (h + Trim(a[1..], newMin)) + Trim(b, newMin);
    }
  }

  /** `t` holds, raised to `newMin`, every window of `ws` with a row at or
      after `newMin`, and nothing else. */
  ghost predicate KeepsLive(ws: seq<Window>, t: seq<Window>, newMin: Time)
  {
    && (forall i :: 0 <= i < |ws| && ws[i].maxTime >= newMin ==> Raise(ws[i], newMin) in t)
    && (forall k :: 0 <= k < |t| ==>
          t[k].maxTime >= newMin && exists i :: 0 <= i < |ws| && ws[i].maxTime >= newMin && t[k] == Raise(ws[i], newMin))
  }

  /** A window survives truncation, raised, exactly when its newest row is
      at or after `newMin`, and every window truncation yields is such a
      raised window. */
  lemma {:induction false} TrimMembers(ws: seq<Window>, newMin: Time)
    ensures forall i :: 0 <= i < |ws| ==> (Raise(ws[i], newMin) in Trim(ws, newMin) <==> ws[i].maxTime >= newMin)
    ensures forall k :: 0 <= k < |Trim(ws, newMin)| ==> Trim(ws, newMin)[k].maxTime >= newMin && exists i ::
      0 <= i < |ws| && ws[i].maxTime >= newMin && Trim(ws, newMin)[k] == Raise(ws[i], newMin)
    ensures KeepsLive(ws, Trim(ws, newMin), newMin)
  {
    TrimRaises(ws, newMin);
    TrimKeepsLive(ws, newMin);
    TrimOnlyLive(ws, newMin);
    var t := Trim(ws, newMin);
    forall k | 0 <= k < |t|
      ensures t[k].maxTime >= newMin && exists i :: 0 <= i < |ws| && ws[i].maxTime >= newMin && t[k] == Raise(ws[i], newMin)
    {
      assert t[k].maxTime >= newMin;
      var i :| 0 <= i < |ws| && ws[i].maxTime >= newMin && t[k] == Raise(ws[i], newMin);
      assert 0 <= i < |ws| && ws[i].maxTime >= newMin && t[k] == Raise(ws[i], newMin);
    }
    assert KeepsLive(ws, t, newMin);
  }

  /** Every window with a row at or after `newMin` survives truncation. */
  lemma {:induction false} TrimKeepsLive(ws: seq<Window>, newMin: Time)
    ensures forall i :: 0 <= i < |ws| && ws[i].maxTime >= newMin ==> Raise(ws[i], newMin) in Trim(ws, newMin)
  {
    if |ws| > 0 {
      var head := if ws[0].maxTime >= newMin then [Raise(ws[0], newMin)] else [];
      var rest := Trim(ws[1..], newMin);
      TrimKeepsLive(ws[1..], newMin);
      var t := Trim(ws, newMin);
      assert t == head + rest;
      forall i | 0 <= i < |ws| && ws[i].maxTime >= newMin
        ensures Raise(ws[i], newMin) in t
      {
        if i == 0 {
          assert t[0] == Raise(ws[0], newMin);
        } else {
          assert ws[i] == ws[1..][i - 1];
          assert Raise(ws[i], newMin) in rest;
        }
      }
    }
  }

  /** Every window truncation yields is a surviving window, raised. */
  lemma {:induction false} TrimOnlyLive(ws: seq<Window>, newMin: Time)
    ensures forall k :: 0 <= k < |Trim(ws, newMin)| ==> Trim(ws, newMin)[k].maxTime >= newMin && exists i ::
      0 <= i < |ws| && ws[i].maxTime >= newMin && Trim(ws, newMin)[k] == Raise(ws[i], newMin)
  {
    if |ws| > 0 {
      var head := if ws[0].maxTime >= newMin then [Raise(ws[0], newMin)] else [];
      var rest := Trim(ws[1..], newMin);
      TrimOnlyLive(ws[1..], newMin);
      assert Trim(ws, newMin) == head + rest;
      TrimRaises(ws, newMin);
      forall k | 0 <= k < |Trim(ws, newMin)|
        ensures Trim(ws, newMin)[k].maxTime >= newMin && exists i :: 0 <= i < |ws| && ws[i].maxTime >= newMin && Trim(ws, newMin)[k] == Raise(ws[i], newMin)
      {
        if k < |head| {
          assert 0 < |ws| && ws[0].maxTime >= newMin && Trim(ws, newMin)[k] == Raise(ws[0], newMin);
        } else {
          assert Trim(ws, newMin)[k] == rest[k - |head|];
          var i :| 0 <= i < |ws[1..]| && ws[1..][i].maxTime >= newMin && rest[k - |head|] == Raise(ws[1..][i], newMin);
          assert ws[i + 1] == ws[1..][i];
          assert 0 <= i + 1 < |ws| && ws[i + 1].maxTime >= newMin && Trim(ws, newMin)[k] == Raise(ws[i + 1], newMin);
        }
      }
    } else {
      assert Trim(ws, newMin) == [];
    }
  }

  /** `Trim` keeps every window when each has a row at or after `newMin`,
      and none when none has. */
  lemma {:induction false} TrimExtremes(ws: seq<Window>, newMin: Time)
    ensures (forall i :: 0 <= i < |ws| ==> ws[i].maxTime >= newMin) ==> |Trim(ws, newMin)| == |ws|
    ensures (forall i :: 0 <= i < |ws| ==> ws[i].maxTime < newMin) ==> Trim(ws, newMin) == []
  {
    if |ws| > 0 {
      TrimExtremes(ws[1..], newMin);
      assert forall i :: 1 <= i < |ws| ==> ws[i] == ws[1..][i - 1];
    }
  }

  /** `Trim` drops rows at most. */
  lemma {:induction false} TrimRows(ws: seq<Window>, newMin: Time)
    ensures TotalRows(Trim(ws, newMin)) <= TotalRows(ws)
  {
    if |ws| > 0 {
      var w := ws[0];
      var head := if w.maxTime >= newMin then [Raise(w, newMin)] else [];
      TrimRows(ws[1..], newMin);
      TotalRowsConcat(head, Trim(ws[1..], newMin));
      assert head != [] ==> head[1..] == [];
    }
  }

  /** A window written before every window of `ws` is written before every
      window `Trim` keeps. */
  lemma {:induction false} TrimBeforeAll(w: Window, ws: seq<Window>, newMin: Time)
    requires BeforeAll(w, ws)
    ensures BeforeAll(w, Trim(ws, newMin))
  {
    if |ws| > 0 {
      var v := ws[0];
      var head := if v.maxTime >= newMin then [Raise(v, newMin)] else [];
      assert Before(w, v);
      assert forall j :: 0 <= j < |ws| - 1 ==> ws[1..][j] == ws[j + 1];
      TrimBeforeAll(w, ws[1..], newMin);
      var t := Trim(ws, newMin);
      assert t == head + Trim(ws[1..], newMin);
      assert forall j :: |head| <= j < |t| ==> t[j] == Trim(ws[1..], newMin)[j - |head|];
    }
  }

  /** Truncating the front of a chain leaves a chain. */
  lemma {:induction false} TrimChain(xs: seq<Window>, ys: seq<Window>, newMin: Time)
    requires Chain(xs + ys)
    ensures Chain(Trim(xs, newMin) + ys)
  {
    if |xs| == 0 {
      assert xs + ys == ys;
    } else {
      var all := xs + ys;
      var x := xs[0];
      assert all[1..] == xs[1..] + ys;
      Slice(all, 1, |all|, 0, map[]);
      TrimChain(xs[1..], ys, newMin);
      var rest := Trim(xs[1..], newMin) + ys;
      if x.maxTime >= newMin {
        var x' := Raise(x, newMin);
        assert WellFormed(all[0]);
        assert BeforeAll(x, xs[1..]) by {
          forall j | 0 <= j < |xs| - 1
            ensures Before(x, xs[1..][j])
          {
            assert all[0] == x && all[j + 1] == xs[1..][j];
          }
        }
        TrimBeforeAll(x, xs[1..], newMin);
        forall j | 0 <= j < |rest|
          ensures Before(x', rest[j])
        {
          if j < |Trim(xs[1..], newMin)| {
            assert rest[j] == Trim(xs[1..], newMin)[j];
          } else {
            var k := j - |Trim(xs[1..], newMin)|;
            assert rest[j] == ys[k] == all[|xs| + k];
            assert Before(all[0], all[|xs| + k]);
          }
        }
        Cons(x', rest);
        assert Trim(xs, newMin) + ys == [x'] + rest;
      } else {
        assert Trim(xs, newMin) + ys == rest;
      }
    }
  }

  /** Truncating keeps every bound. */
  lemma {:induction false} TrimBounded(ws: seq<Window>, newMin: Time, lastWrite: int, maxSequence: map<nat, nat>)
    requires AllBounded(ws, lastWrite, maxSequence)
    ensures AllBounded(Trim(ws, newMin), lastWrite, maxSequence)
  {
    if |ws| > 0 {
      var w := ws[0];
      var head := if w.maxTime >= newMin then [Raise(w, newMin)] else [];
      assert Bounded(ws[0], lastWrite, maxSequence);
      Slice(ws, 1, |ws|, lastWrite, maxSequence);
      TrimBounded(ws[1..], newMin, lastWrite, maxSequence);
      var t := Trim(ws, newMin);
      assert t == head + Trim(ws[1..], newMin);
      assert forall j :: |head| <= j < |t| ==> t[j] == Trim(ws[1..], newMin)[j - |head|];
    }
  }

  /** Whether a search for sequencer `id` takes its numbers from `w`:
      `w` saw `id` and, when a flush time is given, holds rows newer than
      it. */
  predicate Holds(w: Window, id: nat, flushTime: Option<Time>)
  {
    id in w.sequencerNumbers && (flushTime.None? || w.maxTime > flushTime.value)
  }

  /** The minimum sequence number of `id` in the first window that holds
      it, skipping windows with no row newer than `flushTime`. */
  function FirstMin(ws: seq<Window>, id: nat, flushTime: Option<Time>): Option<nat>
  {
    if |ws| == 0 then None
    else if Holds(ws[0], id, flushTime) then Some(ws[0].sequencerNumbers[id].min)
    else FirstMin(ws[1..], id, flushTime)
  }

  /** `FirstMin` finds nothing exactly when no window holds `id`; otherwise
      it reports the minimum of a window that does. */
  lemma {:induction false} FirstMinFound(ws: seq<Window>, id: nat, flushTime: Option<Time>)
    ensures FirstMin(ws, id, flushTime).None? <==> forall i :: 0 <= i < |ws| ==> !Holds(ws[i], id, flushTime)
    ensures FirstMin(ws, id, flushTime).Some? ==> exists i ::
      0 <= i < |ws| && Holds(ws[i], id, flushTime) && FirstMin(ws, id, flushTime).value == ws[i].sequencerNumbers[id].min
  {
    if |ws| > 0 && !Holds(ws[0], id, flushTime) {
      FirstMinFound(ws[1..], id, flushTime);
      assert forall i :: 1 <= i < |ws| ==> ws[i] == ws[1..][i - 1];
      if FirstMin(ws, id, flushTime).Some? {
        var i :| 0 <= i < |ws[1..]| && Holds(ws[1..][i], id, flushTime)
          && FirstMin(ws, id, flushTime).value == ws[1..][i].sequencerNumbers[id].min;
        assert ws[i + 1] == ws[1..][i];
      }
    }
  }

  /** In a chain the first window to hold `id` holds its smallest number
      among the windows searched, and within bounds that number is at most
      the recorded maximum. */
  lemma FirstMinLeast(ws: seq<Window>, id: nat, flushTime: Option<Time>, lastWrite: int, maxSequence: map<nat, nat>)
    requires Chain(ws) && FirstMin(ws, id, flushTime).Some?
    ensures forall i :: 0 <= i < |ws| && Holds(ws[i], id, flushTime) ==>
      FirstMin(ws, id, flushTime).value <= ws[i].sequencerNumbers[id].min
    ensures AllBounded(ws, lastWrite, maxSequence) ==> id in maxSequence && FirstMin(ws, id, flushTime).value <= maxSequence[id]
  {
    FirstMinFound(ws, id, flushTime);
    var i :| 0 <= i < |ws| && Holds(ws[i], id, flushTime) && FirstMin(ws, id, flushTime).value == ws[i].sequencerNumbers[id].min;
    FirstMinIsFirst(ws, id, flushTime, i);
    forall j | 0 <= j < |ws| && Holds(ws[j], id, flushTime)
      ensures FirstMin(ws, id, flushTime).value <= ws[j].sequencerNumbers[id].min
    {
      if j > i {
        assert Before(ws[i], ws[j]) && WellFormed(ws[i]);
      }
    }
    if AllBounded(ws, lastWrite, maxSequence) {
      assert Bounded(ws[i], lastWrite, maxSequence) && WellFormed(ws[i]);
    }
  }

  /** The search stops at the first window that holds `id`: the window it
      reports is no later than any window holding `id`. */
  lemma {:induction false} FirstMinIsFirst(ws: seq<Window>, id: nat, flushTime: Option<Time>, i: nat)
    requires i < |ws| && Holds(ws[i], id, flushTime)
    ensures FirstMin(ws, id, flushTime).Some?
    ensures exists k ::
      0 <= k <= i && Holds(ws[k], id, flushTime) && FirstMin(ws, id, flushTime).value == ws[k].sequencerNumbers[id].min
  {
    if !Holds(ws[0], id, flushTime) {
      assert i > 0;
      FirstMinIsFirst(ws[1..], id, flushTime, i - 1);
      var k :| 0 <= k <= i - 1 && Holds(ws[1..][k], id, flushTime)
        && FirstMin(ws, id, flushTime).value == ws[1..][k].sequencerNumbers[id].min;
      assert ws[k + 1] == ws[1..][k];
    }
  }

  /** The windows a flush keeps, searched for a sequencer, give what the
      flush handle's search over the windows newer than the flush
      timestamp gave. */
  lemma {:induction false} FirstMinAfterTrim(ws: seq<Window>, flushTime: Time, newMin: Time, id: nat)
    requires newMin == flushTime + 1
    ensures FirstMin(Trim(ws, newMin), id, None) == FirstMin(ws, id, Some(flushTime))
  {
    if |ws| > 0 {
      FirstMinAfterTrim(ws[1..], flushTime, newMin, id);
      var w := ws[0];
      if w.maxTime >= newMin {
        var t := [Raise(w, newMin)] + Trim(ws[1..], newMin);
        assert t[1..] == Trim(ws[1..], newMin);
      } else {
        assert [] + Trim(ws[1..], newMin) == Trim(ws[1..], newMin);
      }
    }
  }

  /** No window holds a row newer than `Time::MAX`. */
  lemma {:induction false} FirstMinNothingNewer(ws: seq<Window>, id: nat)
    ensures FirstMin(ws, id, Some(TIME_MAX)).None?
  {
    if |ws| > 0 {
      FirstMinNothingNewer(ws[1..], id);
    }
  }

  /** The rows of the leading windows that satisfy `IsPersistable`: the
      `take_while` of `persistable_row_count`. */
  function LeadingPersistableRows(ws: seq<Window>, now: Time, lateArrivalPeriod: Duration): nat
  {
    if |ws| == 0 || !IsPersistable(ws[0], now, lateArrivalPeriod) then 0
    else ws[0].rowCount + LeadingPersistableRows(ws[1..], now, lateArrivalPeriod)
  }

  /** The rows of every persistable window, wherever it sits. */
  function PersistableRows(ws: seq<Window>, now: Time, lateArrivalPeriod: Duration): nat
  {
    if |ws| == 0 then 0
    else
      var here := if IsPersistable(ws[0], now, lateArrivalPeriod) then ws[0].rowCount else 0;
      here + PersistableRows(ws[1..], now, lateArrivalPeriod)
  }

  /** In a chain the windows are first written in order, so once one is not
      persistable none after it is: stopping at the first one that is not
      counts every persistable row. */
  lemma {:induction false} LeadingPersistableIsAll(ws: seq<Window>, now: Time, lateArrivalPeriod: Duration)
    requires Chain(ws)
    ensures LeadingPersistableRows(ws, now, lateArrivalPeriod) == PersistableRows(ws, now, lateArrivalPeriod)
  {
    if |ws| > 0 {
      Slice(ws, 1, |ws|, 0, map[]);
      if IsPersistable(ws[0], now, lateArrivalPeriod) {
        LeadingPersistableIsAll(ws[1..], now, lateArrivalPeriod);
      } else {
        forall i | 0 <= i < |ws| - 1
          ensures !IsPersistable(ws[1..][i], now, lateArrivalPeriod)
        {
          assert ws[1..][i] == ws[i + 1];
          assert Before(ws[0], ws[i + 1]) && WellFormed(ws[0]);
          PersistableByAge(ws[0], ws[i + 1], now, lateArrivalPeriod, 0);
        }
        NoPersistableRows(ws[1..], now, lateArrivalPeriod);
      }
    }
  }

  lemma {:induction false} NoPersistableRows(ws: seq<Window>, now: Time, lateArrivalPeriod: Duration)
    requires forall i :: 0 <= i < |ws| ==> !IsPersistable(ws[i], now, lateArrivalPeriod)
    ensures PersistableRows(ws, now, lateArrivalPeriod) == 0
  {
    if |ws| > 0 {
      assert forall i :: 0 <= i < |ws| - 1 ==> ws[1..][i] == ws[i + 1];
      NoPersistableRows(ws[1..], now, lateArrivalPeriod);
    }
  }
}
