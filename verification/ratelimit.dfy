/** The per-client sliding-window limiter guarding paste creation: at most
    `MaxRequests` admitted requests per key in any `Window` milliseconds,
    kept as a per-key list of admission times that is pruned lazily. */
module RateLimit {

  const Window: int := 60 * 1000
  const MaxRequests: nat := 5

  /** Admission times of one key, in milliseconds. */
  type History = seq<int>

  /** The limiter state: one history per client key. */
  type Limits = map<string, History>

  /** A time `t` still counts against a request made at `now`. */
  predicate InWindow(now: int, t: int) {
    now - t < Window
  }

  /** The positions of `h` whose times count against a request at `now`. */
  function RecentIndices(h: History, now: int): set<nat> {
    set i: nat | i < |h| && InWindow(now, h[i])
  }

  /** The in-window entries of `h`, in their original order. */
  function Prune(h: History, now: int): (r: History)
    ensures |r| == |RecentIndices(h, now)| && |r| <= |h|
    ensures forall i :: 0 <= i < |r| ==> InWindow(now, r[i])
  {
    if |h| == 0 then [] else
      var n := |h| - 1;
      var front := Prune(h[..n], now);
      assert RecentIndices(h, now) == RecentIndices(h[..n], now) + (if InWindow(now, h[n]) then {n} else {});
      if InWindow(now, h[n]) then front + [h[n]] else front
  }

  /** Pruning keeps every copy of an in-window time and no copy of any other. */
  lemma {:induction false} PruneKeepsInWindowCopies(h: History, now: int)
    ensures forall x :: multiset(Prune(h, now))[x] == if InWindow(now, x) then multiset(h)[x] else 0
  {
    if |h| > 0 {
      var n := |h| - 1;
      PruneKeepsInWindowCopies(h[..n], now);
      assert h == h[..n] + [h[n]];
    }
  }

  /** The outcome of one check for one key. */
  datatype Verdict = Rejected | Admitted(history: History)

  /** One request at `now` against the stored history `h`. */
  function Step(h: History, now: int): (v: Verdict)
    ensures v.Rejected? <==> |RecentIndices(h, now)| >= MaxRequests
    ensures v.Admitted? ==> |v.history| <= MaxRequests
    ensures v.Admitted? ==> forall i :: 0 <= i < |v.history| ==> InWindow(now, v.history[i])
    ensures v.Admitted? ==> |v.history| > 0 && v.history[|v.history| - 1] == now
  {
    var recent := Prune(h, now);
    if |recent| >= MaxRequests then Rejected else Admitted(recent + [now])
  }

  /** The stored history of a key; a key never seen has none. */
  function HistoryOf(limits: Limits, key: string): History {
    if key in limits then limits[key] else []
  }

  datatype Decision = Decision(allowed: bool, limits: Limits)

  /** `checkRateLimit(ip)` at time `now`. A rejection stores nothing; an
      admission replaces the key's history with its in-window part plus `now`. */
  function Check(limits: Limits, key: string, now: int): (d: Decision)
    ensures !d.allowed <==> |RecentIndices(HistoryOf(limits, key), now)| >= MaxRequests
    ensures !d.allowed ==> d.limits == limits
    ensures d.allowed ==> key in d.limits && |d.limits[key]| <= MaxRequests
    ensures d.allowed ==> forall i :: 0 <= i < |d.limits[key]| ==> InWindow(now, d.limits[key][i])
    ensures d.allowed ==> d.limits[key] == Prune(HistoryOf(limits, key), now) + [now]
    ensures d.limits.Keys == limits.Keys + (if d.allowed then {key} else {})
    ensures forall k :: k in limits && k != key ==> d.limits[k] == limits[k]
  {
    match Step(HistoryOf(limits, key), now)
    case Rejected => Decision(false, limits)
    case Admitted(h) => Decision(true, limits[key := h])
  }

  // ---------------------------------------------------------------------------
  // Replaying a stream of requests from one key

  predicate Nondecreasing(times: seq<int>) {
    forall i, j :: 0 <= i < j < |times| ==> times[i] <= times[j]
  }

  /** The limiter after a stream of requests from one key, starting from no
      history: each request's verdict, the stored history, and every time ever
      admitted (never pruned). */
  datatype Trace = Trace(verdicts: seq<bool>, history: History, admitted: seq<int>)

  /** One more request, at `now`, appended to a trace. */
  function Advance(tr: Trace, now: int): (tr': Trace)
    ensures |tr'.verdicts| == |tr.verdicts| + 1
  {
    match Step(tr.history, now)
    case Rejected => Trace(tr.verdicts + [false], tr.history, tr.admitted)
    case Admitted(h) => Trace(tr.verdicts + [true], h, tr.admitted + [now])
  }

  function Replay(times: seq<int>): (tr: Trace)
    ensures |tr.verdicts| == |times|
  {
    if |times| == 0 then Trace([], [], []) else Advance(Replay(times[..|times| - 1]), times[|times| - 1])
  }

  /** Replaying one more request advances the replayed trace by that request. */
  lemma ReplayAppend(init: seq<int>, now: int)
    ensures Replay(init + [now]) == Advance(Replay(init), now)
  {
  }

  /** Every time `h` lacks compared with the admitted times `admitted` has
      fallen out of the window as seen at `last`, and `h` holds nothing else;
      every admitted time is at most `last`. */
  ghost predicate Covers(h: History, admitted: seq<int>, last: int) {
    && multiset(h) <= multiset(admitted)
    && (forall x :: multiset(h)[x] < multiset(admitted)[x] ==> !InWindow(last, x))
    && (forall i :: 0 <= i < |admitted| ==> admitted[i] <= last)
  }

  /** The stored history of a trace covers its admitted times as seen at `last`. */
  ghost predicate Faithful(tr: Trace, last: int) {
    Covers(tr.history, tr.admitted, last)
  }

  /** A refusal at `now` keeps the invariant, seen from the later instant. */
  lemma RefusalKeepsCopies(h: History, admitted: seq<int>, last: int, now: int)
    requires Covers(h, admitted, last)
    requires last <= now
    ensures Covers(h, admitted, now)
  {
  }

  /** An admission at `now` stores the pruned history plus `now` and records
      `now` as admitted; the invariant holds at `now`. */
  lemma AdmissionKeepsCopies(h: History, admitted: seq<int>, last: int, now: int)
    requires Covers(h, admitted, last)
    requires last <= now
    ensures Covers(Prune(h, now) + [now], admitted + [now], now)
  {
    var p := Prune(h, now);
    PruneKeepsInWindowCopies(h, now);
    forall x
      ensures multiset(p + [now])[x] <= multiset(admitted + [now])[x]
      ensures multiset(p + [now])[x] < multiset(admitted + [now])[x] ==> !InWindow(now, x)
    {
      assert multiset(p)[x] == if InWindow(now, x) then multiset(h)[x] else 0;
      assert multiset(p + [now])[x] == multiset(p)[x] + if x == now then 1 else 0;
      assert multiset(admitted + [now])[x] == multiset(admitted)[x] + if x == now then 1 else 0;
    }
  }

  lemma FaithfulAdvance(tr: Trace, last: int, now: int)
    requires Faithful(tr, last)
    requires last <= now
    ensures Faithful(Advance(tr, now), now)
  {
    match Step(tr.history, now)
    case Rejected =>
      assert Advance(tr, now) == Trace(tr.verdicts + [false], tr.history, tr.admitted);
      RefusalKeepsCopies(tr.history, tr.admitted, last, now);
    case Admitted(h) =>
      assert Advance(tr, now) == Trace(tr.verdicts + [true], h, tr.admitted + [now]);
      assert h == Prune(tr.history, now) + [now];
      AdmissionKeepsCopies(tr.history, tr.admitted, last, now);
  }

  lemma {:induction false} ReplayFaithful(times: seq<int>)
    requires Nondecreasing(times)
    requires |times| > 0
    ensures Faithful(Replay(times), times[|times| - 1])
  {
    var n := |times| - 1;
    var init := times[..n];
    var tr := Replay(init);
    assert Replay(times) == Advance(tr, times[n]) by {
      assert init + [times[n]] == times;
      ReplayAppend(init, times[n]);
    }
    if n > 0 {
      assert Faithful(tr, init[n - 1]) by {
        assert Nondecreasing(init);
        ReplayFaithful(init);
      }
      FaithfulAdvance(tr, init[n - 1], times[n]);
    } else {
      assert tr == Trace([], [], []);
      FaithfulAdvance(tr, times[n], times[n]);
    }
  }

  /** Under the invariant, pruning the stored history and pruning the admitted
      times at a later instant keep the same times, copy for copy. */
  lemma PruneAgreesWhenCovered(h: History, admitted: seq<int>, last: int, now: int)
    requires Covers(h, admitted, last)
    requires last <= now
    ensures multiset(Prune(h, now)) == multiset(Prune(admitted, now))
  {
    PruneKeepsInWindowCopies(h, now);
    PruneKeepsInWindowCopies(admitted, now);
    forall x
      ensures multiset(Prune(h, now))[x] == multiset(Prune(admitted, now))[x]
    {
      if InWindow(now, x) {
        assert InWindow(last, x);
      }
    }
  }

  /** Lazy pruning is exact: for a request at `now`, no earlier than any before
      it, the stored history holds precisely as many in-window times as were
      ever admitted within the window. */
  lemma {:induction false} PrunedHistoryIsExact(times: seq<int>, now: int)
    requires Nondecreasing(times)
    requires |times| > 0 ==> times[|times| - 1] <= now
    ensures |Prune(Replay(times).history, now)| == |Prune(Replay(times).admitted, now)|
  {
    var tr := Replay(times);
    if |times| > 0 {
      ReplayFaithful(times);
      PruneAgreesWhenCovered(tr.history, tr.admitted, times[|times| - 1], now);
      SameCopiesSameLength(Prune(tr.history, now), Prune(tr.admitted, now));
    }
  }

  lemma SameCopiesSameLength(a: seq<int>, b: seq<int>)
    requires multiset(a) == multiset(b)
    ensures |a| == |b|
  {
    assert |a| == |multiset(a)|;
  }

  /** The verdict for the next request is the ideal sliding-window rule:
      admitted exactly when fewer than `MaxRequests` earlier admissions lie
      within the window. */
  lemma {:induction false} NextVerdictIsSlidingWindow(times: seq<int>, now: int)
    requires Nondecreasing(times)
    requires |times| > 0 ==> times[|times| - 1] <= now
    ensures Replay(times + [now]).verdicts[|times|]
            <==> |RecentIndices(Replay(times).admitted, now)| < MaxRequests
    ensures Replay(times + [now]).admitted
            == if |RecentIndices(Replay(times).admitted, now)| < MaxRequests
               then Replay(times).admitted + [now] else Replay(times).admitted
    ensures Replay(times + [now]).verdicts[..|times|] == Replay(times).verdicts
  {
    assert (times + [now])[..|times|] == times;
    var tr := Replay(times);
    assert Replay(times + [now]) == Advance(tr, now);
    assert Advance(tr, now).verdicts[|times|] <==> Step(tr.history, now).Admitted?;
    PrunedHistoryIsExact(times, now);
  }

  /** Fewer in-window times at a later instant when no time lies beyond the earlier one. */
  lemma {:induction false} PruneShrinksOverTime(h: History, earlier: int, later: int)
    requires earlier <= later
    requires forall i :: 0 <= i < |h| ==> h[i] <= earlier
    ensures |Prune(h, later)| <= |Prune(h, earlier)|
  {
    if |h| > 0 {
      PruneShrinksOverTime(h[..|h| - 1], earlier, later);
    }
  }

  /** At the time of every request, at most `MaxRequests` admitted requests
      (that one included) lie within the trailing window. */
  lemma {:induction false} AtMostMaxPerWindow(times: seq<int>)
    requires Nondecreasing(times)
    requires |times| > 0
    ensures |RecentIndices(Replay(times).admitted, times[|times| - 1])| <= MaxRequests
  {
    var n := |times| - 1;
    var now := times[n];
    var init := times[..n];
    assert init + [now] == times;
    if n == 0 {
      var tr := Replay(init);
      assert tr == Trace([], [], []);
      ReplayAppend(init, now);
      StepKeepsBound(tr, now, now);
    } else {
      PrefixNondecreasing(times, n);
      AtMostMaxPerWindow(init);
      BoundExtends(init, now);
    }
  }

  /** The induction step of `AtMostMaxPerWindow`: if the bound held at the
      previous request of a non-decreasing stream, it holds at the next. */
  lemma BoundExtends(init: seq<int>, now: int)
    requires Nondecreasing(init) && |init| > 0 && init[|init| - 1] <= now
    requires |RecentIndices(Replay(init).admitted, init[|init| - 1])| <= MaxRequests
    ensures |RecentIndices(Replay(init + [now]).admitted, now)| <= MaxRequests
  {
    var tr := Replay(init);
    var prev := init[|init| - 1];
    ReplayAppend(init, now);
    assert forall i :: 0 <= i < |tr.admitted| ==> tr.admitted[i] <= prev by {
      ReplayFaithful(init);
    }
    assert |Prune(tr.history, now)| == |Prune(tr.admitted, now)| by {
      PrunedHistoryIsExact(init, now);
    }
    StepKeepsBound(tr, prev, now);
  }

  /** A prefix of a non-decreasing stream is non-decreasing. */
  lemma PrefixNondecreasing(times: seq<int>, n: nat)
    requires Nondecreasing(times) && n <= |times|
    ensures Nondecreasing(times[..n])
  {
  }

  /** One request keeps the per-window bound: a refusal adds nothing, and an
      admission happens only when the exact count leaves room for it. */
  lemma StepKeepsBound(tr: Trace, prev: int, now: int)
    requires prev <= now
    requires |RecentIndices(tr.admitted, prev)| <= MaxRequests
    requires forall i :: 0 <= i < |tr.admitted| ==> tr.admitted[i] <= prev
    requires |Prune(tr.history, now)| == |Prune(tr.admitted, now)|
    ensures |RecentIndices(Advance(tr, now).admitted, now)| <= MaxRequests
  {
    match Step(tr.history, now)
    case Rejected =>
      PruneShrinksOverTime(tr.admitted, prev, now);
    case Admitted(h) =>
      var a := tr.admitted + [now];
      assert a[..|a| - 1] == tr.admitted;
      assert Prune(a, now) == Prune(tr.admitted, now) + [now];
  }

  /** Pruning keeps a history whose entries are all in the window. */
  lemma {:induction false} PruneKeepsRecent(h: History, now: int)
    requires forall i :: 0 <= i < |h| ==> InWindow(now, h[i])
    ensures Prune(h, now) == h
  {
    if |h| > 0 {
      PruneKeepsRecent(h[..|h| - 1], now);
      assert h == h[..|h| - 1] + [h[|h| - 1]];
    }
  }

  /** Pruning drops an entry that has left the window. */
  lemma {:induction false} PruneDropsStale(h: History, now: int, j: nat)
    requires j < |h| && !InWindow(now, h[j])
    ensures |Prune(h, now)| < |h|
  {
    var n := |h| - 1;
    if j < n {
      PruneDropsStale(h[..n], now, j);
    }
  }

  /** A stream of at most `MaxRequests` requests is admitted in full. */
  lemma {:induction false} ShortStreamAdmitted(times: seq<int>)
    requires Nondecreasing(times)
    requires |times| <= MaxRequests
    ensures Replay(times).admitted == times
  {
    if |times| > 0 {
      var n := |times| - 1;
      var init := times[..n];
      var t := times[n];
      assert init + [t] == times;
      ShortStreamAdmitted(init);
      NextVerdictIsSlidingWindow(init, t);
      assert |RecentIndices(init, t)| == |Prune(init, t)| <= n;
    }
  }

  lemma {:induction false} ShortStreamVerdicts(times: seq<int>)
    requires Nondecreasing(times)
    requires |times| <= MaxRequests
    ensures forall i :: 0 <= i < |times| ==> Replay(times).verdicts[i]
  {
    if |times| > 0 {
      var n := |times| - 1;
      var init := times[..n];
      assert init + [times[n]] == times;
      PrefixNondecreasing(times, n);
      ShortStreamVerdicts(init);
      AdmittedWhileShort(init, times[n]);
    }
  }

  /** While fewer than `MaxRequests` requests have been made, the next one is
      admitted. */
  lemma AdmittedWhileShort(init: seq<int>, now: int)
    requires Nondecreasing(init) && |init| < MaxRequests
    requires |init| > 0 ==> init[|init| - 1] <= now
    ensures Replay(init + [now]).verdicts == Replay(init).verdicts + [true]
  {
    var vs := Replay(init + [now]).verdicts;
    assert vs[|init|] && vs[..|init|] == Replay(init).verdicts by {
      ShortStreamAdmitted(init);
      NextVerdictIsSlidingWindow(init, now);
      assert |RecentIndices(init, now)| == |Prune(init, now)| <= |init|;
    }
    assert vs == vs[..|init|] + [vs[|init|]];
  }

  /** Six creations from one client within a minute: the first five are
      admitted and the sixth refused; once the window has moved past the
      first admission, the next request is admitted again. */
  lemma SixthWithinWindowRefused(times: seq<int>, later: int)
    requires |times| == 6 && Nondecreasing(times)
    requires times[5] - times[0] < Window
    requires later >= times[5] && later - times[0] >= Window
    ensures forall i :: 0 <= i < 5 ==> Replay(times).verdicts[i]
    ensures !Replay(times).verdicts[5]
    ensures Replay(times + [later]).verdicts[6]
  {
    var first := times[..5];
    var t := times[5];
    assert first + [t] == times;
    ShortStreamAdmitted(first);
    ShortStreamVerdicts(first);
    assert forall i :: 0 <= i < 5 ==> InWindow(t, first[i]);
    PruneKeepsRecent(first, t);
    NextVerdictIsSlidingWindow(first, t);
    forall i | 0 <= i < 5
      ensures Replay(times).verdicts[i]
    {
      assert Replay(times).verdicts[i] == Replay(times).verdicts[..5][i];
    }
    NextVerdictIsSlidingWindow(times, later);
    PruneDropsStale(first, later, 0);
  }

  /** A full window after the last request, nothing stored is in the window any more. */
  lemma {:induction false} StoredHistoryGoesStale(times: seq<int>, later: int)
    requires Nondecreasing(times) && |times| > 0
    requires later - times[|times| - 1] >= Window
    ensures Prune(Replay(times).history, later) == []
  {
    var tr := Replay(times);
    ReplayFaithful(times);
    PruneKeepsInWindowCopies(tr.history, later);
    var kept := multiset(Prune(tr.history, later));
    assert forall x :: multiset(tr.history)[x] > 0 ==> x in tr.admitted;
    assert forall x :: kept[x] == 0;
    assert kept == multiset{};
  }

  /** Whatever the clock, a request meeting fewer than `MaxRequests` stored
      in-window times is admitted and recorded. */
  lemma AdmittedWhenRoom(times: seq<int>, now: int)
    requires |Prune(Replay(times).history, now)| < MaxRequests
    ensures Replay(times + [now]) == Trace(Replay(times).verdicts + [true],
                                           Prune(Replay(times).history, now) + [now],
                                           Replay(times).admitted + [now])
  {
  }

  /** A full window after `MaxRequests` admissions, a further request is
      admitted and leaves only itself stored. */
  lemma ThenOneLater(first: seq<int>, later: int)
    requires Nondecreasing(first) && |first| == MaxRequests
    requires later - first[|first| - 1] >= Window
    ensures Replay(first + [later]).history == [later]
    ensures Replay(first + [later]).admitted == first + [later]
  {
    ShortStreamAdmitted(first);
    StoredHistoryGoesStale(first, later);
    AdmittedWhenRoom(first, later);
  }

  /** After `ThenOneLater`, a request at an earlier instant `back` finds one
      stored time in its window and is admitted. */
  lemma ThenBackInTime(six: seq<int>, later: int, back: int)
    requires Replay(six).history == [later]
    requires back < later
    ensures Replay(six + [back]).admitted == Replay(six).admitted + [back]
  {
  }

  /** The bound needs a clock that never goes backwards. `MaxRequests`
      requests, one more a full window after them (which prunes them all)
      and one after the clock steps back to `back`, still within a window of
      the first, are all admitted: the trailing window at `back` then holds
      all `MaxRequests + 2` admissions. */
  lemma BackwardClockBreaksBound(first: seq<int>, later: int, back: int)
    requires Nondecreasing(first) && |first| == MaxRequests
    requires later - first[|first| - 1] >= Window
    requires back < later && back - first[0] < Window
    ensures var times := first + [later, back];
            && Replay(times).admitted == times
            && (forall i :: 0 <= i < |times| ==> InWindow(back, Replay(times).admitted[i]))
  {
    var six := first + [later];
    var times := six + [back];
    assert times == first + [later, back];
    assert Replay(times).admitted == times by {
      ThenOneLater(first, later);
      ThenBackInTime(six, later, back);
    }
    StillInWindow(first, later, back);
  }

  /** Every time of the stream in `BackwardClockBreaksBound` lies in the
      window seen at `back`. */
  lemma StillInWindow(first: seq<int>, later: int, back: int)
    requires Nondecreasing(first) && |first| > 0
    requires back < later && back - first[0] < Window
    ensures forall i :: 0 <= i < |first| + 2 ==> InWindow(back, (first + [later, back])[i])
  {
  }
}
