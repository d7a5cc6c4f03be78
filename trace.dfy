/** A run of requests through the gate, from the empty deque, and what it
    guarantees over time while the clock never steps back: a request is
    admitted exactly when fewer than `limit` earlier admissions lie inside the
    window, so no window of length `window` holds more than `limit`
    admissions. */
module Trace {
  import opened Window

  /** The two clock readings of one request: at eviction and when recorded. */
  datatype Tick = Tick(now: int, stamp: int)

  /** The clock never runs backwards along the run, and each request is
      handled as one step: its eviction reading precedes its recorded stamp,
      which precedes every later request's readings. */
  predicate Monotone(ticks: seq<Tick>) {
    (forall i :: 0 <= i < |ticks| ==> ticks[i].now <= ticks[i].stamp) &&
    (forall i, j :: 0 <= i < j < |ticks| ==> ticks[i].stamp <= ticks[j].now)
  }

  /** The deque after the run. */
  function Queue(ticks: seq<Tick>, window: int, limit: int): seq<int>
    decreases |ticks|
  {
    if ticks == [] then []
    else
      var t := ticks[|ticks| - 1];
      Step(Queue(ticks[..|ticks| - 1], window, limit), t.now, t.stamp, window, limit).queue
  }

  /** The decision on the last request of the run. */
  function Decision(ticks: seq<Tick>, window: int, limit: int): bool
    requires ticks != []
  {
    var t := ticks[|ticks| - 1];
    Step(Queue(ticks[..|ticks| - 1], window, limit), t.now, t.stamp, window, limit).admitted
  }

  /** The recorded stamps of every admitted request of the run, in order. */
  function History(ticks: seq<Tick>, window: int, limit: int): seq<int>
    decreases |ticks|
  {
    if ticks == [] then []
    else
      History(ticks[..|ticks| - 1], window, limit)
      + (if Decision(ticks, window, limit) then [ticks[|ticks| - 1].stamp] else [])
  }

  /** The number of entries of `h` in the closed interval [lo, hi]. */
  function CountIn(h: seq<int>, lo: int, hi: int): nat
    decreases |h|
  {
    if h == [] then 0 else (if lo <= h[0] <= hi then 1 else 0) + CountIn(h[1..], lo, hi)
  }

  lemma {:induction false} CountInAppend(h: seq<int>, s: int, lo: int, hi: int)
    ensures CountIn(h + [s], lo, hi) == CountIn(h, lo, hi) + (if lo <= s <= hi then 1 else 0)
    decreases |h|
  {
    if h != [] {
      CountInAppend(h[1..], s, lo, hi);
      assert (h + [s])[1..] == h[1..] + [s];
    }
  }

  /** Entries in a window that ends at or after `now` are younger than
      `window` at `now`, so they are among the window's contents at `now`. */
  lemma {:induction false} CountInAtMostRecent(h: seq<int>, lo: int, hi: int, now: int, window: int)
    requires now - window <= lo
    ensures CountIn(h, lo, hi) <= |Recent(h, now, window)|
    decreases |h|
  {
    if h != [] {
      CountInAtMostRecent(h[1..], lo, hi, now, window);
    }
  }

  lemma MonotonePrefix(ticks: seq<Tick>, n: int)
    requires Monotone(ticks) && 0 <= n <= |ticks|
    ensures Monotone(ticks[..n])
  {
    assert forall i :: 0 <= i < n ==> ticks[..n][i] == ticks[i];
  }

  /** One step from a deque that holds the window's contents of a sorted
      history: the decision is taken on the window's contents at the new
      instant, and the new deque holds those of the new history. */
  lemma StepFromRecent(h: seq<int>, t0: int, t: Tick, window: int, limit: int)
    requires Sorted(h) && 0 <= window && t0 <= t.now <= t.stamp
    requires forall i :: 0 <= i < |h| ==> h[i] <= t.now
    ensures var o := Step(Recent(h, t0, window), t.now, t.stamp, window, limit);
            (o.admitted <==> |Recent(h, t.now, window)| < limit) &&
            o.queue == Recent(if o.admitted then h + [t.stamp] else h, t.now, window)
  {
    RecentSorted(h, t0, window);
    EvictSortedIsRecent(Recent(h, t0, window), t.now, window);
    RecentOfRecent(h, t0, t.now, window);
    RecentAppend(h, t.stamp, t.now, window);
  }

  /** The last request of a monotone run is not earlier than the stamps of
      the requests before it. */
  lemma MonotoneLast(ticks: seq<Tick>)
    requires Monotone(ticks) && |ticks| >= 2
    ensures ticks[|ticks| - 2].stamp <= ticks[|ticks| - 1].now
    ensures ticks[|ticks| - 2].now <= ticks[|ticks| - 1].now
  {
  }

  /** One more request: the deque takes one Step and the history grows by the
      recorded stamp exactly when the request is admitted. */
  lemma Unfold(ticks: seq<Tick>, window: int, limit: int)
    requires ticks != []
    ensures var o := Step(Queue(ticks[..|ticks| - 1], window, limit), ticks[|ticks| - 1].now,
                          ticks[|ticks| - 1].stamp, window, limit);
            Queue(ticks, window, limit) == o.queue && Decision(ticks, window, limit) == o.admitted &&
            History(ticks, window, limit)
            == if o.admitted then History(ticks[..|ticks| - 1], window, limit) + [ticks[|ticks| - 1].stamp]
               else History(ticks[..|ticks| - 1], window, limit)
  {
  }

  lemma GrowSorted(h: seq<int>, s: int, admitted: bool)
    requires Sorted(h) && forall i :: 0 <= i < |h| ==> h[i] <= s
    ensures var h2 := if admitted then h + [s] else h;
            Sorted(h2) && forall i :: 0 <= i < |h2| ==> h2[i] <= s
  {
    if admitted {
      SortedAppend(h, s);
      var h2 := h + [s];
      forall i | 0 <= i < |h2| ensures h2[i] <= s {
        if i < |h| { assert h2[i] == h[i]; }
      }
    }
  }

  /** Along a monotone run the deque holds exactly the recorded stamps of the
      admitted requests that are inside the window at the last eviction
      instant, and those stamps are sorted. */
  lemma {:induction false} QueueIsRecent(ticks: seq<Tick>, window: int, limit: int)
    requires Monotone(ticks) && 0 <= window && ticks != []
    ensures Queue(ticks, window, limit) == Recent(History(ticks, window, limit), ticks[|ticks| - 1].now, window)
    ensures Sorted(History(ticks, window, limit))
    ensures var h := History(ticks, window, limit);
            forall i :: 0 <= i < |h| ==> h[i] <= ticks[|ticks| - 1].stamp
    decreases |ticks|
  {
    var init := ticks[..|ticks| - 1];
    var t := ticks[|ticks| - 1];
    var h := History(init, window, limit);
    var t0 := PreviousNow(ticks, window, limit);
    var o := Step(Recent(h, t0, window), t.now, t.stamp, window, limit);
    assert Queue(ticks, window, limit) == o.queue
           && History(ticks, window, limit) == (if o.admitted then h + [t.stamp] else h) by {
      Unfold(ticks, window, limit);
    }
    assert o.queue == Recent(if o.admitted then h + [t.stamp] else h, t.now, window) by {
      StepFromRecent(h, t0, t, window, limit);
    }
    GrowSorted(h, t.stamp, o.admitted);
  }

  /** The facts about the run before the last request that one more step
      needs: the deque then holds the window's contents of the history at the
      previous eviction instant `t0`, and that history is sorted and not later
      than the last request's eviction instant. */
  lemma {:induction false} PreviousNow(ticks: seq<Tick>, window: int, limit: int) returns (t0: int)
    requires Monotone(ticks) && 0 <= window && ticks != []
    ensures t0 <= ticks[|ticks| - 1].now
    ensures Queue(ticks[..|ticks| - 1], window, limit) == Recent(History(ticks[..|ticks| - 1], window, limit), t0, window)
    ensures Sorted(History(ticks[..|ticks| - 1], window, limit))
    ensures var h := History(ticks[..|ticks| - 1], window, limit);
            forall i :: 0 <= i < |h| ==> h[i] <= ticks[|ticks| - 1].now
    ensures ticks[|ticks| - 1].now <= ticks[|ticks| - 1].stamp
    decreases |ticks|, 0
  {
    var init := ticks[..|ticks| - 1];
    var t := ticks[|ticks| - 1];
    MonotonePrefix(ticks, |ticks| - 1);
    if init == [] {
      t0 := t.now;
    } else {
      t0 := init[|init| - 1].now;
      MonotoneLast(ticks);
      assert init[|init| - 1] == ticks[|ticks| - 2];
      QueueIsRecent(init, window, limit);
    }
  }

  /** A request is admitted exactly when fewer than `limit` earlier admissions
      were recorded inside the window at its eviction instant. */
  lemma DecisionIff(ticks: seq<Tick>, window: int, limit: int)
    requires Monotone(ticks) && 0 <= window && ticks != []
    ensures Decision(ticks, window, limit)
            <==> |Recent(History(ticks[..|ticks| - 1], window, limit), ticks[|ticks| - 1].now, window)| < limit
  {
    var init := ticks[..|ticks| - 1];
    var t := ticks[|ticks| - 1];
    var h := History(init, window, limit);
    var t0 := PreviousNow(ticks, window, limit);
    var o := Step(Recent(h, t0, window), t.now, t.stamp, window, limit);
    StepFromRecent(h, t0, t, window, limit);
    assert Decision(ticks, window, limit) == o.admitted;
  }

  /** The sliding-window bound: along a monotone run no closed interval
      [lo, hi] of length at most `window` holds more than `limit` recorded
      admissions (none at all when the limit is not positive). */
  lemma {:induction false} AtMostLimitPerWindow(ticks: seq<Tick>, window: int, limit: int, lo: int, hi: int)
    requires Monotone(ticks) && 0 <= window && hi - lo <= window
    ensures CountIn(History(ticks, window, limit), lo, hi) <= (if limit > 0 then limit else 0)
    decreases |ticks|
  {
    if limit <= 0 {
      NoAdmissions(ticks, window, limit);
    } else if ticks == [] {
      assert History(ticks, window, limit) == [];
    } else {
      MonotonePrefix(ticks, |ticks| - 1);
      AtMostLimitPerWindow(ticks[..|ticks| - 1], window, limit, lo, hi);
      AtMostLimitStep(ticks, window, limit, lo, hi);
    }
  }

  /** With a limit that is not positive no request of any run is admitted. */
  lemma {:induction false} NoAdmissions(ticks: seq<Tick>, window: int, limit: int)
    requires limit <= 0
    ensures History(ticks, window, limit) == []
    decreases |ticks|
  {
    if ticks != [] {
      var init := ticks[..|ticks| - 1];
      var t := ticks[|ticks| - 1];
      NoAdmissions(init, window, limit);
      NonPositiveLimitRejects(Queue(init, window, limit), t.now, t.stamp, window, limit);
    }
  }

  /** The induction step of the bound: one more request keeps it. */
  lemma AtMostLimitStep(ticks: seq<Tick>, window: int, limit: int, lo: int, hi: int)
    requires Monotone(ticks) && 0 <= window && 0 <= limit && hi - lo <= window && ticks != []
    requires CountIn(History(ticks[..|ticks| - 1], window, limit), lo, hi) <= limit
    ensures CountIn(History(ticks, window, limit), lo, hi) <= limit
  {
    var init := ticks[..|ticks| - 1];
    var t := ticks[|ticks| - 1];
    var h := History(init, window, limit);
    var d := Decision(ticks, window, limit);
    var hNew := if d then h + [t.stamp] else h;
    assert CountIn(hNew, lo, hi) <= limit by {
      if d {
        DecisionIff(ticks, window, limit);
      }
      WindowBoundStep(h, d, t, lo, hi, window, limit);
    }
    assert History(ticks, window, limit) == hNew;
  }

  /** One more request keeps the bound: an admission whose stamp falls in
      [lo, hi] was decided on a window that already held every earlier
      admission in [lo, hi], and it held fewer than `limit` of them. */
  lemma WindowBoundStep(h: seq<int>, admitted: bool, t: Tick, lo: int, hi: int, window: int, limit: int)
    requires hi - lo <= window && t.now <= t.stamp
    ensures CountIn(h, lo, hi) <= limit && (admitted ==> |Recent(h, t.now, window)| < limit)
            ==> CountIn(if admitted then h + [t.stamp] else h, lo, hi) <= limit
  {
    if admitted {
      CountInAppend(h, t.stamp, lo, hi);
      if lo <= t.stamp <= hi {
        CountInAtMostRecent(h, lo, hi, t.now, window);
      }
    }
  }
}
