/** The sliding-window admission rule on the timestamp deque, oldest first, as
    values: what one admission attempt does to the deque and decides. */
module Window {

  /** Oldest first: no timestamp is larger than a later one. */
  predicate Sorted(q: seq<int>) {
    forall i, j :: 0 <= i < j < |q| ==> q[i] <= q[j]
  }

  /** The deque after isNotLimitMax's loop: the front is popped while its age at
      `now` is strictly greater than `window`. */
  function Evict(q: seq<int>, now: int, window: int): (r: seq<int>)
    ensures |r| <= |q| && r == q[|q| - |r|..]
    ensures forall i :: 0 <= i < |q| - |r| ==> now - q[i] > window
    ensures r == [] || now - r[0] <= window
    decreases |q|
  {
    if q != [] && now - q[0] > window then Evict(q[1..], now, window) else q
  }

  /** Reference definition of the window's contents: the entries of `q` whose
      age at `now` is at most `window`, in their order. */
  function Recent(q: seq<int>, now: int, window: int): (r: seq<int>)
    ensures |r| <= |q|
    decreases |q|
  {
    if q == [] then []
    else (if now - q[0] <= window then [q[0]] else []) + Recent(q[1..], now, window)
  }

  /** The outcome of one admission attempt. */
  datatype Outcome = Outcome(admitted: bool, queue: seq<int>)

  /** The deque of an outcome without the timestamp an admission recorded. */
  function Kept(r: Outcome): seq<int> {
    if r.admitted && r.queue != [] then r.queue[..|r.queue| - 1] else r.queue
  }

  /** One admission attempt: evict at `now`, admit iff fewer than `limit`
      entries remain, and on admission record `stamp` at the back. The source
      reads the clock twice, once for the eviction (`now`) and once for the
      recorded timestamp (`stamp`). */
  function Step(q: seq<int>, now: int, stamp: int, window: int, limit: int): (r: Outcome)
    ensures |Kept(r)| <= |q| && Kept(r) == q[|q| - |Kept(r)|..]
    ensures forall i :: 0 <= i < |q| - |Kept(r)| ==> now - q[i] > window
    ensures Kept(r) == [] || now - Kept(r)[0] <= window
    ensures r.admitted <==> |Kept(r)| < limit
    ensures r.admitted ==> r.queue == Kept(r) + [stamp]
    ensures |q| <= limit ==> |r.queue| <= limit
  {
    var e := Evict(q, now, window);
    if |e| < limit then Outcome(true, e + [stamp]) else Outcome(false, e)
  }

  /** With a limit that is not positive nothing is ever admitted; the step
      only evicts. */
  lemma NonPositiveLimitRejects(q: seq<int>, now: int, stamp: int, window: int, limit: int)
    requires limit <= 0
    ensures !Step(q, now, stamp, window, limit).admitted
    ensures Step(q, now, stamp, window, limit).queue == Evict(q, now, window)
  {
  }

  /** A sorted deque whose stamps are not later than the one recorded stays
      sorted through a step. */
  lemma StepSorted(q: seq<int>, now: int, stamp: int, window: int, limit: int)
    requires Sorted(q) && forall i :: 0 <= i < |q| ==> q[i] <= stamp
    ensures Sorted(Step(q, now, stamp, window, limit).queue)
  {
    var e := Evict(q, now, window);
    assert Step(q, now, stamp, window, limit).queue == if |e| < limit then e + [stamp] else e;
    EvictSortedBounded(q, now, window, stamp);
    if |e| < limit {
      SortedAppend(e, stamp);
    }
  }

  /** Eviction keeps a deque sorted and keeps an upper bound on its stamps. */
  lemma {:induction false} EvictSortedBounded(q: seq<int>, now: int, window: int, hi: int)
    requires Sorted(q) && forall i :: 0 <= i < |q| ==> q[i] <= hi
    ensures Sorted(Evict(q, now, window))
    ensures forall i :: 0 <= i < |Evict(q, now, window)| ==> Evict(q, now, window)[i] <= hi
    decreases |q|
  {
    if q != [] && now - q[0] > window {
      SortedSuffix(q, 1);
      assert forall i :: 0 <= i < |q[1..]| ==> q[1..][i] <= hi by {
        forall i | 0 <= i < |q[1..]| ensures q[1..][i] <= hi {
          assert q[1..][i] == q[i + 1];
        }
      }
      EvictSortedBounded(q[1..], now, window, hi);
    }
  }

  lemma SortedSuffix(q: seq<int>, k: int)
    requires Sorted(q) && 0 <= k <= |q|
    ensures Sorted(q[k..])
  {
    forall i, j | 0 <= i < j < |q| - k ensures q[k..][i] <= q[k..][j] {
      assert q[k..][i] == q[k + i] && q[k..][j] == q[k + j];
    }
  }

  lemma SortedAppend(q: seq<int>, s: int)
    requires Sorted(q) && forall i :: 0 <= i < |q| ==> q[i] <= s
    ensures Sorted(q + [s])
  {
    forall i, j | 0 <= i < j < |q| + 1 ensures (q + [s])[i] <= (q + [s])[j] {
      if j < |q| { assert (q + [s])[j] == q[j]; }
    }
  }

  /** Every entry of a sorted deque that survives eviction is inside the
      window (eviction looks only at the front, so this needs the order). */
  lemma {:induction false} EvictedSortedInWindow(q: seq<int>, now: int, window: int)
    requires Sorted(q)
    ensures forall j :: 0 <= j < |Evict(q, now, window)| ==> now - Evict(q, now, window)[j] <= window
    decreases |q|
  {
    if q != [] {
      if now - q[0] > window {
        SortedSuffix(q, 1);
        EvictedSortedInWindow(q[1..], now, window);
      } else {
        assert forall j :: 0 <= j < |q| ==> q[0] <= q[j];
      }
    }
  }

  lemma {:induction false} RecentOfInWindow(q: seq<int>, now: int, window: int)
    requires forall i :: 0 <= i < |q| ==> now - q[i] <= window
    ensures Recent(q, now, window) == q
    decreases |q|
  {
    if q != [] {
      RecentOfInWindow(q[1..], now, window);
      assert [q[0]] + q[1..] == q;
    }
  }

  /** On a sorted deque, eviction from the front removes exactly the entries
      that have left the window. */
  lemma {:induction false} EvictSortedIsRecent(q: seq<int>, now: int, window: int)
    requires Sorted(q)
    ensures Evict(q, now, window) == Recent(q, now, window)
    decreases |q|
  {
    if q != [] {
      if now - q[0] > window {
        EvictSortedIsRecent(q[1..], now, window);
      } else {
        RecentOfInWindow(q, now, window);
      }
    }
  }

  /** What is still in the window at a later time was in it earlier. */
  lemma {:induction false} RecentOfRecent(q: seq<int>, t1: int, t2: int, window: int)
    requires t1 <= t2
    ensures Recent(Recent(q, t1, window), t2, window) == Recent(q, t2, window)
    decreases |q|
  {
    if q != [] {
      RecentOfRecent(q[1..], t1, t2, window);
      var rest := Recent(q[1..], t1, window);
      if t1 - q[0] <= window {
        assert Recent(q, t1, window) == [q[0]] + rest;
        assert ([q[0]] + rest)[1..] == rest;
      } else {
        assert Recent(q, t1, window) == rest;
        assert Recent(q, t2, window) == Recent(q[1..], t2, window);
      }
    }
  }

  /** Recording a timestamp at the back adds it to the window's contents iff
      it is inside the window. */
  lemma {:induction false} RecentAppend(q: seq<int>, s: int, now: int, window: int)
    ensures Recent(q + [s], now, window) == Recent(q, now, window) + (if now - s <= window then [s] else [])
    decreases |q|
  {
    if q == [] {
      assert [] + [s] == [s];
    } else {
      var head := if now - q[0] <= window then [q[0]] else [];
      var tail := if now - s <= window then [s] else [];
      assert (q + [s])[0] == q[0];
      assert (q + [s])[1..] == q[1..] + [s];
      assert Recent(q + [s], now, window) == head + Recent(q[1..] + [s], now, window);
      RecentAppend(q[1..], s, now, window);
      assert head + (Recent(q[1..], now, window) + tail) == (head + Recent(q[1..], now, window)) + tail;
    }
  }

  lemma {:induction false} RecentBounded(q: seq<int>, lo: int, now: int, window: int)
    requires forall i :: 0 <= i < |q| ==> lo <= q[i]
    ensures forall i :: 0 <= i < |Recent(q, now, window)| ==> lo <= Recent(q, now, window)[i]
    decreases |q|
  {
    if q != [] {
      RecentBounded(q[1..], lo, now, window);
    }
  }

  /** The window's contents of a sorted deque are sorted. */
  lemma {:induction false} RecentSorted(q: seq<int>, now: int, window: int)
    requires Sorted(q)
    ensures Sorted(Recent(q, now, window))
    decreases |q|
  {
    if q != [] {
      RecentSorted(q[1..], now, window);
      var rest := Recent(q[1..], now, window);
      RecentBounded(q[1..], q[0], now, window);
      if now - q[0] <= window {
        assert Recent(q, now, window) == [q[0]] + rest;
      } else {
        assert Recent(q, now, window) == rest;
      }
    }
  }

  /** A rejection changes nothing that a repeated attempt at the same instant
      could observe: it is rejected again and leaves the same deque. */
  lemma RejectIsStable(q: seq<int>, now: int, stamp: int, stamp2: int, window: int, limit: int)
    requires !Step(q, now, stamp, window, limit).admitted
    ensures Step(Step(q, now, stamp, window, limit).queue, now, stamp2, window, limit)
            == Step(q, now, stamp, window, limit)
  {
    var e := Evict(q, now, window);
    assert Step(q, now, stamp, window, limit) == Outcome(false, e);
    EvictIdempotent(q, now, window);
  }

  /** Evicting twice at the same instant is evicting once. */
  lemma EvictIdempotent(q: seq<int>, now: int, window: int)
    ensures Evict(Evict(q, now, window), now, window) == Evict(q, now, window)
  {
    var e := Evict(q, now, window);
    if e != [] {
      assert now - e[0] <= window;
    }
  }

  /** The boundary: with a window of 1000 and a limit of 1, after an admission
      at 0 an attempt at 1000 (age exactly 1000, kept) is rejected and one at
      1001 (age 1001, evicted) is admitted. */
  lemma BoundaryExample()
    ensures Step([], 0, 0, 1000, 1) == Outcome(true, [0])
    ensures Step([0], 1000, 1000, 1000, 1) == Outcome(false, [0])
    ensures Step([0], 1001, 1001, 1000, 1) == Outcome(true, [1001])
  {
    assert Evict([], 0, 1000) == [];
    assert Step([], 0, 0, 1000, 1) == Outcome(true, [0]);
    assert Evict([0], 1000, 1000) == [0];
    assert Step([0], 1000, 1000, 1000, 1) == Outcome(false, [0]);
    assert Evict([0], 1001, 1000) == Evict([], 1001, 1000) == [];
    assert Step([0], 1001, 1001, 1000, 1) == Outcome(true, [1001]);
  }
}
