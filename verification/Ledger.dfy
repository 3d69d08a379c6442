/** The event log of a node: which steps may change the store, what the log replays to, and
    the laws every such log obeys. The controller in Node keeps its state equal to the replay. */
module Ledger {
  import opened Prelude
  import opened Bpa
  import opened Contact
  import opened Store

  /** Why a bundle left the store. */
  datatype Cause =
    | SentIn(window: ContactWindow, at: int)
    | Expiry(at: int)
    | Space(newcomer: Bundle, at: int)

  datatype Event =
    | Stored(bundle: Bundle, request: Option<Bundle>)   // a data bundle, or the echo of a ping
    | Left(bundle: Bundle, cause: Cause)
    | Delivered(bundle: Bundle)    // to a local endpoint
    | Refused(bundle: Bundle)      // invalid, duplicate or no room
    | EchoLost(bundle: Bundle)    // a ping whose echo could not be made or stored
    | Absorbed(bundle: Bundle)     // a ping response or a bundle of unknown type

  function Apply(m: Contents, e: Event): Contents {
    match e
    case Stored(b, _) => m[b.Key() := b]
    case Left(b, _) => m - {b.Key()}
    case _ => m
  }

  /** When a step may happen in a store of the given capacity. */
  ghost predicate Allowed(m: Contents, e: Event, max: int) {
    match e
    case Stored(b, _) => b.Key() !in m && TotalSize(m) + b.Size() <= max
    case Left(b, cause) =>
      b.Key() in m && m[b.Key()] == b && Justified(m, b, cause)
    case _ => true
  }

  ghost predicate Justified(m: Contents, b: Bundle, cause: Cause) {
    match cause
    case SentIn(w, at) => w.IsActive(at) && b.destination == EndpointID("dtn", w.remoteNode)
    case Expiry(at) => b.IsExpired(at)
    case Space(_, at) => MayEvict(m, b.Key(), at)
  }

  ghost function Replay(initial: Contents, log: seq<Event>): Contents {
    if log == [] then initial
    else Apply(Replay(initial, log[..|log| - 1]), log[|log| - 1])
  }

  ghost predicate Legal(initial: Contents, log: seq<Event>, max: int) {
    log == [] ||
    (var n := |log| - 1;
     Legal(initial, log[..n], max) && Allowed(Replay(initial, log[..n]), log[n], max))
  }

  lemma Extend(initial: Contents, log: seq<Event>, max: int, e: Event)
    requires Legal(initial, log, max) && Allowed(Replay(initial, log), e, max)
    ensures Legal(initial, log + [e], max)
    ensures Replay(initial, log + [e]) == Apply(Replay(initial, log), e)
  {
    assert (log + [e])[..|log|] == log;
  }

  // ---------------------------------------------------------------- batch departures

  /** The departures of the given keys, in order, for one cause. */
  ghost function Departures(m: Contents, keys: seq<string>, cause: Cause): (r: seq<Event>)
    requires forall k :: k in keys ==> k in m
    ensures |r| == |keys| && forall i :: 0 <= i < |keys| ==> r[i] == Left(m[keys[i]], cause)
  {
    seq(|keys|, i requires 0 <= i < |keys| => Left(m[keys[i]], cause))
  }

  lemma DeparturesSnoc(log: seq<Event>, m: Contents, earlier: seq<string>, k: string, cause: Cause)
    requires (forall j :: j in earlier ==> j in m) && k in m
    ensures forall j :: j in earlier + [k] ==> j in m
    ensures log + Departures(m, earlier + [k], cause)
            == log + Departures(m, earlier, cause) + [Left(m[k], cause)]
  {
  }

  lemma DeparturesNone(log: seq<Event>, m: Contents, cause: Cause)
    ensures log + Departures(m, [], cause) == log
  {
  }

  lemma {:induction false} ExtendByDepartures(
    initial: Contents, log: seq<Event>, max: int, m: Contents, keys: seq<string>, t: int, cause: Cause)
    requires Legal(initial, log, max) && m == Replay(initial, log) && WellKeyed(m)
    requires EvictionOrder(m, keys, t) && cause.at == t
    requires forall k :: k in keys ==> k in m
    requires cause.Space? || (cause.Expiry? && forall k :: k in keys ==> m[k].IsExpired(t))
    ensures var after := log + Departures(m, keys, cause);
            Legal(initial, after, max) && Replay(initial, after) == Without(m, keys)
  {
    hide Bundle.IsExpired, Allowed, Apply, Replay, Legal, MayEvict, Without, Departures, WellKeyed;
    if keys == [] {
      DeparturesNone(log, m, cause);
      WithoutNone(m);
    } else {
      var n := |keys| - 1;
      var k, earlier := keys[n], keys[..n];
      assert keys == earlier + [k];
      ExtendByDepartures(initial, log, max, m, earlier, t, cause);
      var soFar := log + Departures(m, earlier, cause);
      WithoutSnoc(m, earlier, k);
      DepartureAllowed(m, earlier, k, t, max, cause);
      Extend(initial, soFar, max, Left(m[k], cause));
      DeparturesSnoc(log, m, earlier, k, cause);
    }
  }

  lemma DepartureAllowed(m: Contents, earlier: seq<string>, k: string, t: int, max: int, cause: Cause)
    requires k in m && WellKeyed(m) && cause.at == t && MayEvict(Without(m, earlier), k, t)
    requires cause.Space? || (cause.Expiry? && m[k].IsExpired(t))
    ensures Allowed(Without(m, earlier), Left(m[k], cause), max)
    ensures Apply(Without(m, earlier), Left(m[k], cause)) == Without(m, earlier) - {k}
  {
    EvictedWasPresent(m, earlier, k, t);
    assert m[k].Key() == k;
  }

  // ------------------------------------------------------------------------ counting

  datatype Counts = Counts(
    stored: nat, sent: nat, bytesSent: nat, expired: nat, evicted: nat,
    delivered: nat, refused: nat, echoLost: nat, absorbed: nat)
  {
    /** What the TotalBundlesReceived statistic holds: refusals and expiries are taken off. */
    function Received(): int { stored + delivered + echoLost + absorbed - expired }

    /** Received, less everything that accounts for a received bundle except being stored. */
    function Unaccounted(): int { Received() - delivered - sent - evicted - absorbed - echoLost }
  }

  function Count(c: Counts, e: Event): Counts {
    match e
    case Stored(_, _) => c.(stored := c.stored + 1)
    case Left(b, SentIn(_, _)) => c.(sent := c.sent + 1, bytesSent := c.bytesSent + b.Size())
    case Left(_, Expiry(_)) => c.(expired := c.expired + 1)
    case Left(_, Space(_, _)) => c.(evicted := c.evicted + 1)
    case Delivered(_) => c.(delivered := c.delivered + 1)
    case Refused(_) => c.(refused := c.refused + 1)
    case EchoLost(_) => c.(echoLost := c.echoLost + 1)
    case Absorbed(_) => c.(absorbed := c.absorbed + 1)
  }

  function Tally(log: seq<Event>): Counts {
    if log == [] then Counts(0, 0, 0, 0, 0, 0, 0, 0, 0)
    else Count(Tally(log[..|log| - 1]), log[|log| - 1])
  }

  lemma TallySnoc(log: seq<Event>, e: Event)
    ensures Tally(log + [e]) == Count(Tally(log), e)
  {
    assert (log + [e])[..|log|] == log;
  }

  /** A node's store and statistics, explained by a legal log; `arriving` bundles have been
      counted as received but their fate is not yet in the log. */
  ghost predicate Explained(initial: Contents, log: seq<Event>, max: int, now: Contents, arriving: int,
                            received: int, sent: int, bytesSent: int, forwarded: int) {
    && Legal(initial, log, max)
    && now == Replay(initial, log)
    && received == Tally(log).Received() + arriving
    && sent == Tally(log).sent
    && bytesSent == Tally(log).bytesSent
    && forwarded == Tally(log).delivered
  }

  lemma ExplainedAtStart(m: Contents, max: int)
    ensures Explained(m, [], max, m, 0, 0, 0, 0, 0)
  {
  }

  /** One more allowed step, with all that follows for the replay and the tallies. */
  lemma ExtendLog(initial: Contents, log: seq<Event>, max: int, e: Event)
    requires Legal(initial, log, max) && Allowed(Replay(initial, log), e, max)
    ensures Legal(initial, log + [e], max)
    ensures Replay(initial, log + [e]) == Apply(Replay(initial, log), e)
    ensures Tally(log + [e]) == Count(Tally(log), e)
  {
    Extend(initial, log, max, e);
    TallySnoc(log, e);
  }

  lemma {:induction false} TallyDepartures(log: seq<Event>, m: Contents, keys: seq<string>, cause: Cause)
    requires forall k :: k in keys ==> k in m
    requires !cause.SentIn?
    ensures Tally(log + Departures(m, keys, cause)) ==
            if cause.Expiry? then Tally(log).(expired := Tally(log).expired + |keys|)
            else Tally(log).(evicted := Tally(log).evicted + |keys|)
  {
    hide Tally, Departures;
    if keys == [] {
      DeparturesNone(log, m, cause);
    } else {
      var n := |keys| - 1;
      assert keys == keys[..n] + [keys[n]];
      TallyDepartures(log, m, keys[..n], cause);
      TallySnoc(log + Departures(m, keys[..n], cause), Left(m[keys[n]], cause));
      DeparturesSnoc(log, m, keys[..n], keys[n], cause);
    }
  }

  // ------------------------------------------------------------- laws of every history

  /** Conservation: received plus initially stored equals forwarded, sent, still stored,
      evicted for space, absorbed and unanswered pings. */
  lemma {:induction false} LedgerBalances(initial: Contents, log: seq<Event>, max: int)
    requires Legal(initial, log, max)
    ensures var c := Tally(log);
            c.Received() + |initial| ==
            c.delivered + c.sent + |Replay(initial, log)| + c.evicted + c.absorbed + c.echoLost
  {
    hide Replay, Tally, Legal;
    StoredIsUnaccounted(initial, log, max);
  }

  lemma {:induction false} StoredIsUnaccounted(initial: Contents, log: seq<Event>, max: int)
    requires Legal(initial, log, max)
    ensures |Replay(initial, log)| == |initial| + Tally(log).Unaccounted()
  {
    hide Apply, Allowed, Count, Counts.Unaccounted;
    if log == [] {
      assert Tally(log).Unaccounted() == 0 by { NothingCounted(); }
    } else {
      var n := |log| - 1;
      StoredIsUnaccounted(initial, log[..n], max);
      SizeStep(Replay(initial, log[..n]), log[n], max);
      CountStep(Tally(log[..n]), log[n]);
    }
  }

  function Delta(e: Event): int {
    if e.Stored? then 1 else if e.Left? then -1 else 0
  }

  lemma NothingCounted()
    ensures Tally([]).Unaccounted() == 0
  {
  }

  lemma CountStep(c: Counts, e: Event)
    ensures Count(c, e).Unaccounted() == c.Unaccounted() + Delta(e)
  {
  }

  lemma SizeStep(m: Contents, e: Event, max: int)
    requires Allowed(m, e, max)
    ensures |Apply(m, e)| == |m| + Delta(e)
  {
    hide Bundle.Key, TotalSize, Justified;
    match e
    case Stored(b, _) => OneMoreKey(m, b.Key(), b);
    case Left(b, _) => OneKeyFewer(m, b.Key());
    case _ =>
  }

  lemma OneMoreKey(m: Contents, k: string, b: Bundle)
    requires k !in m
    ensures |m[k := b]| == |m| + 1
  {
    assert m[k := b].Keys == m.Keys + {k};
  }

  lemma OneKeyFewer(m: Contents, k: string)
    requires k in m
    ensures |m - {k}| == |m| - 1
  {
    assert (m - {k}).Keys == m.Keys - {k};
  }

  /** What the health report's dropped figure really is: everything sent counts as dropped,
      and so does everything the node absorbed; refused bundles do not. */
  lemma {:induction false} DroppedMeans(initial: Contents, log: seq<Event>, max: int)
    requires Legal(initial, log, max)
    ensures var c := Tally(log);
            c.Received() - c.delivered - |Replay(initial, log)| ==
            c.sent + c.evicted + c.absorbed + c.echoLost - |initial|
  {
    LedgerBalances(initial, log, max);
  }

  lemma {:induction false} HistoryStaysWellKeyed(initial: Contents, log: seq<Event>)
    requires WellKeyed(initial)
    ensures WellKeyed(Replay(initial, log))
  {
    if log != [] {
      HistoryStaysWellKeyed(initial, log[..|log| - 1]);
    }
  }

  /** No history lets the store outgrow its capacity. */
  lemma {:induction false} HistoryRespectsCapacity(initial: Contents, log: seq<Event>, max: int)
    requires Legal(initial, log, max) && TotalSize(initial) <= max
    ensures TotalSize(Replay(initial, log)) <= max
  {
    if log != [] {
      var n := |log| - 1;
      HistoryRespectsCapacity(initial, log[..n], max);
      var m := Replay(initial, log[..n]);
      match log[n]
      case Stored(b, _) => TotalAdd(m, b.Key(), b);
      case Left(b, _) => TotalRemove(m, b.Key());
      case _ =>
    }
  }

  /** Every departure was justified by the store as it then was. */
  lemma {:induction false} EveryStepWasAllowed(initial: Contents, log: seq<Event>, max: int, i: nat)
    requires Legal(initial, log, max) && i < |log|
    ensures Allowed(Replay(initial, log[..i]), log[i], max)
  {
    hide Allowed, Replay;
    var n := |log| - 1;
    if i < n {
      EveryStepWasAllowed(initial, log[..n], max, i);
      assert log[..n][..i] == log[..i];
    }
  }

  /** The step at which the bundle left. */
  ghost predicate LeavesAt(log: seq<Event>, i: nat, b: Bundle) {
    i < |log| && log[i].Left? && log[i].bundle == b
  }

  /** It left then, for a reason that the store as it was justified. */
  ghost predicate JustlyLeaves(initial: Contents, log: seq<Event>, j: nat, b: Bundle) {
    LeavesAt(log, j, b) && Justified(Replay(initial, log[..j]), b, log[j].cause)
  }

  /** A bundle stored at any point of a history and gone at its end was, in between, sent to its
      destination in a window active at that time, or expired, or evicted under the policy. */
  lemma {:induction false} LeavesOnlyForACause(initial: Contents, log: seq<Event>, max: int, i: nat, k: string)
    requires Legal(initial, log, max) && WellKeyed(initial) && i <= |log|
    requires k in Replay(initial, log[..i])
    requires var b := Replay(initial, log[..i])[k];
             !(k in Replay(initial, log) && Replay(initial, log)[k] == b)
    ensures exists j :: i <= j && JustlyLeaves(initial, log, j, Replay(initial, log[..i])[k])
  {
    hide Justified, Allowed, Apply, WellKeyed, JustlyLeaves;
    var n := |log| - 1;
    var b := Replay(initial, log[..i])[k];
    assert log[..|log|] == log;
    assert i <= n;
    var m := Replay(initial, log[..n]);
    assert log[..n][..i] == log[..i];
    if k in m && m[k] == b {
      HistoryStaysWellKeyed(initial, log[..n]);
      LastStepRemoves(m, log[n], max, k);
      LeavesNow(initial, log, n, b);
    } else {
      LeavesOnlyForACause(initial, log[..n], max, i, k);
      var j :| i <= j && JustlyLeaves(initial, log[..n], j, b);
      LeftEarlier(initial, log, n, j, b);
    }
  }

  lemma LeavesNow(initial: Contents, log: seq<Event>, j: nat, b: Bundle)
    requires j < |log| && log[j].Left? && log[j].bundle == b && Justified(Replay(initial, log[..j]), b, log[j].cause)
    ensures JustlyLeaves(initial, log, j, b)
  {
    hide Justified;
  }

  lemma LeftEarlier(initial: Contents, log: seq<Event>, n: nat, j: nat, b: Bundle)
    requires n <= |log| && JustlyLeaves(initial, log[..n], j, b)
    ensures JustlyLeaves(initial, log, j, b)
  {
    hide Justified;
    assert log[..n][..j] == log[..j];
  }

  lemma LastStepRemoves(m: Contents, e: Event, max: int, k: string)
    requires WellKeyed(m) && Allowed(m, e, max) && k in m
    requires !(k in Apply(m, e) && Apply(m, e)[k] == m[k])
    ensures e.Left? && e.bundle == m[k] && Justified(m, m[k], e.cause)
  {
    hide Justified;
  }

  /** The step at which the bundle came in. */
  ghost predicate EntersAt(log: seq<Event>, i: nat, b: Bundle) {
    i < |log| && log[i].Stored? && log[i].bundle == b
  }

  /** Nothing is stored that was neither there at the start nor taken in. */
  lemma {:induction false} StoredOnlyIfTakenIn(initial: Contents, log: seq<Event>, k: string)
    requires k in Replay(initial, log)
    ensures (k in initial && initial[k] == Replay(initial, log)[k])
            || exists i :: EntersAt(log, i, Replay(initial, log)[k])
  {
    if log != [] {
      var n := |log| - 1;
      var b := Replay(initial, log)[k];
      if log[n].Stored? && log[n].bundle == b && b.Key() == k {
        assert EntersAt(log, n, b);
      } else {
        StoredOnlyIfTakenIn(initial, log[..n], k);
        if exists i :: EntersAt(log[..n], i, b) {
          var i :| EntersAt(log[..n], i, b);
          assert EntersAt(log, i, b);
        }
      }
    }
  }
}
