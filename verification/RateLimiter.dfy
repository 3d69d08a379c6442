/** The sliding-window rate limiter (pkg/security/ratelimit.go). Instants are nanoseconds of a
    clock that never runs backwards. */
module RateLimiter {

  const WINDOW := 1_000_000_000

  /** The timestamps strictly after the cutoff, in order. */
  function After(ts: seq<int>, cutoff: int): seq<int> {
    if ts == [] then []
    else After(ts[..|ts| - 1], cutoff) + if ts[|ts| - 1] > cutoff then [ts[|ts| - 1]] else []
  }

  ghost predicate Sorted(ts: seq<int>) {
    forall i, j :: 0 <= i < j < |ts| ==> ts[i] <= ts[j]
  }

  lemma AfterSnoc(ts: seq<int>, t: int, cutoff: int)
    ensures After(ts + [t], cutoff) == After(ts, cutoff) + if t > cutoff then [t] else []
  {
    assert (ts + [t])[..|ts|] == ts;
  }

  /** Pruning at an earlier cutoff first changes nothing. */
  lemma {:induction false} PruneTwice(ts: seq<int>, earlier: int, later: int)
    requires earlier <= later
    ensures After(After(ts, earlier), later) == After(ts, later)
  {
    if ts != [] {
      var n := |ts| - 1;
      PruneTwice(ts[..n], earlier, later);
      if ts[n] > earlier {
        AfterSnoc(After(ts[..n], earlier), ts[n], later);
      } else {
        assert After(ts[..n], earlier) + [] == After(ts[..n], earlier);
      }
    }
  }

  // -------------------------------------------------------------------------- runs

  /** One call on the pruned list, as the code makes it. */
  function PrunedStep(ts: seq<int>, now: int, max: int): (seq<int>, bool) {
    var kept := After(ts, now - WINDOW);
    if |kept| >= max then (kept, false) else (kept + [now], true)
  }

  /** One call on the full acceptance history. */
  function FullStep(history: seq<int>, now: int, max: int): (seq<int>, bool) {
    if |After(history, now - WINDOW)| >= max then (history, false) else (history + [now], true)
  }

  function PrunedRun(calls: seq<int>, max: int): (seq<int>, seq<bool>) {
    if calls == [] then ([], [])
    else
      var (ts, ds) := PrunedRun(calls[..|calls| - 1], max);
      var (ts', d) := PrunedStep(ts, calls[|calls| - 1], max);
      (ts', ds + [d])
  }

  function FullRun(calls: seq<int>, max: int): (seq<int>, seq<bool>) {
    if calls == [] then ([], [])
    else
      var (h, ds) := FullRun(calls[..|calls| - 1], max);
      var (h', d) := FullStep(h, calls[|calls| - 1], max);
      (h', ds + [d])
  }

  /** The accepted instants: each found fewer than max acceptances in the window before it. */
  ghost predicate Admissible(history: seq<int>, max: int) {
    history == [] ||
    (var n := |history| - 1;
     Admissible(history[..n], max) && |After(history[..n], history[n] - WINDOW)| < max &&
     forall i :: 0 <= i < n ==> history[i] <= history[n])
  }

  lemma AdmissibleSnoc(history: seq<int>, now: int, max: int)
    requires Admissible(history, max) && |After(history, now - WINDOW)| < max
    requires forall i :: 0 <= i < |history| ==> history[i] <= now
    ensures Admissible(history + [now], max)
  {
    assert (history + [now])[..|history|] == history;
  }

  /** On every run of a clock that never goes back, forgetting old timestamps is invisible:
      the decisions are those of the full history, of which the list is the recent part. */
  lemma {:induction false} PruningIsInvisible(calls: seq<int>, max: int)
    requires Sorted(calls)
    ensures PrunedRun(calls, max).1 == FullRun(calls, max).1
    ensures Admissible(FullRun(calls, max).0, max)
    ensures calls != [] ==> PrunedRun(calls, max).0 == After(FullRun(calls, max).0, calls[|calls| - 1] - WINDOW)
    ensures forall i :: 0 <= i < |FullRun(calls, max).0| ==> calls != [] && FullRun(calls, max).0[i] <= calls[|calls| - 1]
  {
    if calls != [] {
      var n := |calls| - 1;
      PruningIsInvisible(calls[..n], max);
      var (ts, _) := PrunedRun(calls[..n], max);
      var (h, _) := FullRun(calls[..n], max);
      var now := calls[n];
      hide After, PrunedRun, FullRun, Admissible;
      if n == 0 {
        RunOfNothing(max);
        StepAgrees(ts, h, now - WINDOW, now, max);
      } else {
        assert calls[..n][n - 1] == calls[n - 1] <= now;
        StepAgrees(ts, h, calls[n - 1] - WINDOW, now, max);
      }
      RunsUnfold(calls, max);
    }
  }

  lemma RunOfNothing(max: int)
    ensures PrunedRun([], max) == ([], []) && FullRun([], max) == ([], [])
    ensures forall c :: After([], c) == []
  {
  }

  lemma RunsUnfold(calls: seq<int>, max: int)
    requires calls != []
    ensures var n := |calls| - 1;
            var p, f := PrunedRun(calls[..n], max), FullRun(calls[..n], max);
            var p', f' := PrunedStep(p.0, calls[n], max), FullStep(f.0, calls[n], max);
            PrunedRun(calls, max) == (p'.0, p.1 + [p'.1]) && FullRun(calls, max) == (f'.0, f.1 + [f'.1])
  {
  }

  /** One call: if the list is the part of the history after some earlier cutoff, both sides
      decide alike and the list becomes the part after the new cutoff. */
  lemma StepAgrees(ts: seq<int>, h: seq<int>, earlier: int, now: int, max: int)
    requires ts == After(h, earlier) && earlier <= now - WINDOW && Admissible(h, max)
    requires forall i :: 0 <= i < |h| ==> h[i] <= now
    ensures var (ts', d) := PrunedStep(ts, now, max);
            var (h', e) := FullStep(h, now, max);
            d == e && ts' == After(h', now - WINDOW) && Admissible(h', max) &&
            forall i :: 0 <= i < |h'| ==> h'[i] <= now
  {
    hide After, Admissible;
    PruneTwice(h, earlier, now - WINDOW);
    AfterSnoc(h, now, now - WINDOW);
    if |After(h, now - WINDOW)| < max {
      AdmissibleSnoc(h, now, max);
    }
  }

  /** Acceptances in the half-open interval (t - window, t]. */
  function Within(history: seq<int>, t: int): nat {
    if history == [] then 0
    else
      var last := history[|history| - 1];
      Within(history[..|history| - 1], t) + if t - WINDOW < last <= t then 1 else 0
  }

  lemma {:induction false} WithinAtMostAfter(history: seq<int>, t: int, cutoff: int)
    requires cutoff <= t - WINDOW
    ensures Within(history, t) <= |After(history, cutoff)|
  {
    if history != [] {
      WithinAtMostAfter(history[..|history| - 1], t, cutoff);
    }
  }

  /** No interval of one window, wherever it ends, holds more than the permitted acceptances. */
  lemma {:induction false} NoWindowOverflows(history: seq<int>, max: int, t: int)
    requires Admissible(history, max)
    ensures Within(history, t) <= if max > 0 then max else 0
    ensures LastSecond(history, t) <= if max > 0 then max else 0
  {
    WithinIsLastSecond(history, t);
    if history != [] {
      var n := |history| - 1;
      NoWindowOverflows(history[..n], max, t);
      if t - WINDOW < history[n] <= t {
        WithinAtMostAfter(history[..n], t, history[n] - WINDOW);
      }
    }
  }

  /** For instants not in the future, the timestamps after the cutoff are the acceptances of
      the last second. */
  lemma {:induction false} AfterIsWithin(history: seq<int>, now: int)
    requires forall i :: 0 <= i < |history| ==> history[i] <= now
    ensures |After(history, now - WINDOW)| == Within(history, now)
  {
    if history != [] {
      AfterIsWithin(history[..|history| - 1], now);
    }
  }

  /** How often an instant of the last second before now was accepted. */
  function LastSecond(history: seq<int>, now: int): nat {
    |set i | 0 <= i < |history| && now - 1_000_000_000 < history[i] && history[i] <= now|
  }

  lemma {:induction false} WithinIsLastSecond(history: seq<int>, now: int)
    ensures Within(history, now) == LastSecond(history, now)
  {
    if history != [] {
      var n := |history| - 1;
      WithinIsLastSecond(history[..n], now);
      var all := set i | 0 <= i < |history| && now - 1_000_000_000 < history[i] && history[i] <= now;
      var earlier := set i | 0 <= i < n && now - 1_000_000_000 < history[..n][i] && history[..n][i] <= now;
      if now - 1_000_000_000 < history[n] && history[n] <= now {
        assert all == earlier + {n};
      } else {
        assert all == earlier;
      }
    }
  }

  // ------------------------------------------------------------------------ the class

  class Limiter {
    const maxBundlesPerSecond: int
    var timestamps: seq<int>
    ghost var history: seq<int>   // every acceptance since the last reset
    ghost var latest: int         // the last instant the clock showed
    ghost var pruned: int         // the cutoff of the last pruning

    constructor (maxBundlesPerSecond: int, ghost now: int)
      ensures this.maxBundlesPerSecond == maxBundlesPerSecond && Valid() && history == [] && latest == now
    {
      this.maxBundlesPerSecond := maxBundlesPerSecond;
      timestamps, history, latest, pruned := [], [], now, now - WINDOW;
    }

    ghost predicate Valid()
      reads this
    {
      && pruned <= latest - WINDOW && timestamps == After(history, pruned)
      && Admissible(history, maxBundlesPerSecond)
      && forall i :: 0 <= i < |history| ==> history[i] <= latest
    }

    /** The decision depends only on the full acceptance history. */
    method Allow(now: int) returns (ok: bool)
      requires Valid() && now >= latest
      modifies this
      ensures Valid() && latest == now
      ensures ok <==> |After(old(history), now - WINDOW)| < maxBundlesPerSecond
      ensures ok <==> LastSecond(old(history), now) < maxBundlesPerSecond
      ensures history == if ok then old(history) + [now] else old(history)
    {
      hide After, Admissible, Within, LastSecond;
      AfterIsWithin(history, now);
      WithinIsLastSecond(history, now);
      StepAgrees(timestamps, history, pruned, now, maxBundlesPerSecond);
      PruneTwice(history, pruned, now - WINDOW);
      var cutoff := now - WINDOW;
      timestamps := Prune(cutoff);
      latest, pruned := now, cutoff;
      if |timestamps| >= maxBundlesPerSecond {
        return false;
      }
      timestamps := timestamps + [now];
      history := history + [now];
      ok := true;
    }

    method Prune(cutoff: int) returns (valid: seq<int>)
      ensures valid == After(timestamps, cutoff)
    {
      valid := [];
      for i := 0 to |timestamps|
        invariant valid == After(timestamps[..i], cutoff)
      {
        assert timestamps[..i + 1][..i] == timestamps[..i];
        if timestamps[i] > cutoff {
          valid := valid + [timestamps[i]];
        }
      }
      assert timestamps[..|timestamps|] == timestamps;
    }

    /** Counted on the pruned list, the rate is that of the full history. */
    method GetCurrentRate(now: int) returns (count: nat)
      requires Valid() && now >= latest
      ensures count == |After(history, now - WINDOW)| == LastSecond(history, now)
    {
      hide LastSecond, Within;
      AfterIsWithin(history, now);
      WithinIsLastSecond(history, now);
      PruneTwice(history, pruned, now - WINDOW);
      var cutoff := now - WINDOW;
      count := 0;
      for i := 0 to |timestamps|
        invariant count == |After(timestamps[..i], cutoff)|
      {
        assert timestamps[..i + 1][..i] == timestamps[..i];
        if timestamps[i] > cutoff {
          count := count + 1;
        }
      }
      assert timestamps[..|timestamps|] == timestamps;
    }

    method Reset()
      requires Valid()
      modifies this`timestamps, this`history
      ensures Valid() && history == []
    {
      timestamps, history := [], [];
    }
  }
}
