/** What the predictors promise: their windows are exactly the long visible runs, and the
    separately written plan validator accepts them. */
module PredictionTheorems {
  import opened Prelude
  import opened Contact
  import opened Sorting
  import opened Prediction

  // ------------------------------------------------------------ closings are runs

  lemma {:induction false} RunStartIsMaximal(sc: Scenario, x: NodeID, q: nat)
    requires sc.Known(x)
    ensures var a := sc.RunStart(x, q);
            (forall j :: a <= j < q ==> sc.Visible(x, j)) && (a > 0 ==> !sc.Visible(x, a - 1))
  {
    if q > 0 && sc.Visible(x, q - 1) {
      RunStartIsMaximal(sc, x, q - 1);
    }
  }

  lemma SampleMonotone(sc: Scenario, x: NodeID, p: nat, q: nat)
    requires sc.IsSound() && sc.Known(x) && p <= q
    ensures Quotient(p, sc.Fleet(x)) <= Quotient(q, sc.Fleet(x))
    ensures sc.At(x, p) <= sc.At(x, q)
  {
    QuotientMonotone(p, q, sc.Fleet(x));
    TimeMonotone(sc, Quotient(p, sc.Fleet(x)), Quotient(q, sc.Fleet(x)));
  }

  /** A closing is the same thing as a maximal run that is long enough. */
  lemma ClosesIsLongRun(sc: Scenario, x: NodeID, a: nat, b: nat)
    requires sc.Known(x)
    ensures sc.MaximalRun(x, a, b) && sc.LongEnough(x, a, b) <==> sc.Closes(x, b) && a == sc.RunStart(x, b)
  {
    hide Scenario.Visible, Scenario.At;
    RunStartIsMaximal(sc, x, b);
    var s := sc.RunStart(x, b);
    if sc.Closes(x, b) {
      assert s < b;
    }
    if sc.MaximalRun(x, a, b) {
      assert sc.Visible(x, b - 1);
      assert a > 0 ==> !sc.Visible(x, a - 1);
      assert s > 0 ==> !sc.Visible(x, s - 1);
      assert a == s;
    }
  }

  lemma {:induction false} PeakIsMaximum(sc: Scenario, x: NodeID, a: nat, b: nat)
    requires sc.Known(x) && a < b
    ensures exists q :: a <= q < b && sc.Elevation(x, q) == sc.PeakElevation(x, a, b)
    ensures forall q :: a <= q < b ==> sc.Elevation(x, q) <= sc.PeakElevation(x, a, b)
    decreases b
  {
    hide Scenario.Elevation;
    if b == a + 1 {
      assert sc.Elevation(x, a) == sc.PeakElevation(x, a, b);
    } else {
      PeakIsMaximum(sc, x, a, b - 1);
      var q :| a <= q < b - 1 && sc.Elevation(x, q) == sc.PeakElevation(x, a, b - 1);
      var top := if sc.Elevation(x, b - 1) > sc.Elevation(x, q) then b - 1 else q;
      assert sc.Elevation(x, top) == sc.PeakElevation(x, a, b);
    }
  }

  lemma {:induction false} DopplerPeakIsMaximum(sc: Scenario, x: NodeID, a: nat, b: nat)
    requires sc.Known(x) && a < b
    ensures exists q :: a <= q < b && sc.Doppler(x, q) == sc.PeakDoppler(x, a, b)
    ensures forall q :: a <= q < b ==> sc.Doppler(x, q) <= sc.PeakDoppler(x, a, b)
    decreases b
  {
    hide Scenario.Doppler;
    if b == a + 1 {
      assert sc.Doppler(x, a) == sc.PeakDoppler(x, a, b);
    } else {
      DopplerPeakIsMaximum(sc, x, a, b - 1);
      var q :| a <= q < b - 1 && sc.Doppler(x, q) == sc.PeakDoppler(x, a, b - 1);
      var top := if sc.Doppler(x, b - 1) > sc.Doppler(x, q) then b - 1 else q;
      assert sc.Doppler(x, top) == sc.PeakDoppler(x, a, b);
    }
  }

  lemma PassDescribes(sc: Scenario, x: NodeID, b: nat, id: nat)
    requires sc.Known(x) && sc.Closes(x, b)
    ensures var a := sc.RunStart(x, b);
            sc.MaximalRun(x, a, b) && sc.LongEnough(x, a, b) && sc.Describes(sc.Pass(x, b, id), x, a, b)
  {
    hide Scenario.Elevation, Scenario.Doppler, Scenario.At, Scenario.Visible, Scenario.LongEnough;
    var a := sc.RunStart(x, b);
    ClosesIsLongRun(sc, x, a, b);
    PeakIsMaximum(sc, x, a, b);
    DopplerPeakIsMaximum(sc, x, a, b);
  }

  // ------------------------------------------------------ closings are listed once

  /** The closings listed are those of the observations made so far, each once. */
  lemma {:induction false} ClosingsExact(sc: Scenario, k: nat, i: nat)
    requires i <= |sc.stations|
    ensures Distinct(sc.Closings(k, i))
    ensures forall x, q: nat :: (x, q) in sc.Closings(k, i) <==> sc.Known(x) && q < sc.Seen(x, k, i) && sc.Closes(x, q)
    decreases k, i
  {
    hide Scenario.Seen, Scenario.Closes;
    if i > 0 {
      ClosingsExact(sc, k, i - 1);
      ClosingsStep(sc, k, i - 1);
    } else if k > 0 {
      ClosingsExact(sc, k - 1, |sc.stations|);
      forall x ensures sc.Seen(x, k, 0) == sc.Seen(x, k - 1, |sc.stations|) {
        SampleOver(sc, x, k - 1);
      }
    } else {
      forall x ensures sc.Seen(x, 0, 0) == 0 {
        NothingSeen(sc, x);
      }
    }
  }

  lemma NothingSeen(sc: Scenario, x: NodeID)
    ensures sc.Seen(x, 0, 0) == 0
  {
  }

  lemma ClosingsStep(sc: Scenario, k: nat, i: nat)
    requires i < |sc.stations| && Distinct(sc.Closings(k, i))
    requires forall x, q: nat :: (x, q) in sc.Closings(k, i) <==> sc.Known(x) && q < sc.Seen(x, k, i) && sc.Closes(x, q)
    ensures Distinct(sc.Closings(k, i + 1))
    ensures forall x, q: nat :: (x, q) in sc.Closings(k, i + 1)
                           <==> sc.Known(x) && q < sc.Seen(x, k, i + 1) && sc.Closes(x, q)
  {
    hide Scenario.Seen, Scenario.Closes;
    var y := sc.stations[i].id;
    var due := sc.Seen(y, k, i);
    var src, next := sc.Closings(k, i), sc.Closings(k, i + 1);
    TurnOf(sc, i, k);
    assert (y, due) !in src;
    assert next == src + if sc.Closes(y, due) then [(y, due)] else [];
    forall x, q: nat ensures (x, q) in next <==> sc.Known(x) && q < sc.Seen(x, k, i + 1) && sc.Closes(x, q) {
      if x != y {
        NotItsTurn(sc, x, k, i);
      }
    }
  }

  // -------------------------------------------------------------- the main theorem

  /** Every output element is one emitted pass, and comes from its own closing. */
  lemma Source(sc: Scenario, n: nat, out: seq<PredictedContact>, c: PredictedContact) returns (p: nat)
    requires IsPrediction(sc, n, out) && c in out
    ensures var src := sc.Closings(n, 0);
            p < |src| && sc.Known(src[p].0) && src[p].1 < sc.Seen(src[p].0, n, 0) && sc.Closes(src[p].0, src[p].1)
            && c == sc.Pass(src[p].0, src[p].1, p + 1)
  {
    hide Scenario.Closes, Scenario.Pass, Scenario.Seen, Scenario.Closings;
    var src := sc.Closings(n, 0);
    var passes := sc.Passes(src);
    assert c in multiset(out);
    assert c in passes;
    p :| 0 <= p < |passes| && passes[p] == c;
    ClosingsExact(sc, n, 0);
    assert (src[p].0, src[p].1) in src;
  }

  lemma PassesDistinct(sc: Scenario, n: nat, out: seq<PredictedContact>)
    requires IsPrediction(sc, n, out)
    ensures Distinct(out) && |out| == |sc.Closings(n, 0)|
    ensures forall c :: c in out <==> c in sc.Passes(sc.Closings(n, 0))
  {
    var passes := sc.Passes(sc.Closings(n, 0));
    forall i, j | 0 <= i < j < |passes| ensures passes[i] != passes[j] {
      assert passes[i].window.contactID == i + 1 && passes[j].window.contactID == j + 1;
    }
    PermutationKeepsDistinct(passes, out);
  }

  ghost predicate HasID(cs: seq<PredictedContact>, id: nat) {
    exists j :: 0 <= j < |cs| && cs[j].window.contactID == id
  }

  /** Contact IDs 1..n are each used exactly once. */
  lemma ContactIDsAreOneToN(sc: Scenario, n: nat, out: seq<PredictedContact>)
    requires IsPrediction(sc, n, out)
    ensures forall j :: 0 <= j < |out| ==> 1 <= out[j].window.contactID <= |out|
    ensures forall i, j :: 0 <= i < j < |out| ==> out[i].window.contactID != out[j].window.contactID
    ensures forall id: nat :: HasID(out, id) <==> 1 <= id <= |out|
  {
    hide IsPrediction, Scenario.Closes, Scenario.Closings, Scenario.Seen;
    PassesDistinct(sc, n, out);
    forall j | 0 <= j < |out| ensures 1 <= out[j].window.contactID <= |out| {
      var p := Source(sc, n, out, out[j]);
    }
    forall i, j | 0 <= i < j < |out| ensures out[i].window.contactID != out[j].window.contactID {
      var p := Source(sc, n, out, out[i]);
      var q := Source(sc, n, out, out[j]);
    }
    forall id: nat | 1 <= id <= |out| ensures HasID(out, id) {
      IDIsUsed(sc, n, out, id);
    }
  }

  lemma IDIsUsed(sc: Scenario, n: nat, out: seq<PredictedContact>, id: nat)
    requires IsPrediction(sc, n, out) && 1 <= id <= |out|
    ensures HasID(out, id)
  {
    PassesDistinct(sc, n, out);
    var passes := sc.Passes(sc.Closings(n, 0));
    assert passes[id - 1] in out;
    var j :| 0 <= j < |out| && out[j] == passes[id - 1];
  }

  lemma UnixTime(sc: Scenario, k: nat)
    ensures Unix(sc.Time(k)) == Unix(sc.from) + k * sc.stepSeconds
  {
  }

  lemma UnixTimeMonotone(sc: Scenario, j: nat, k: nat)
    requires sc.IsSound() && j <= k
    ensures sc.Time(j) <= sc.Time(k)
    ensures Unix(sc.Time(j)) <= Unix(sc.Time(k)) && (j < k ==> Unix(sc.Time(j)) < Unix(sc.Time(k)))
  {
    UnixTime(sc, j);
    UnixTime(sc, k);
    assert k * sc.stepSeconds == j * sc.stepSeconds + (k - j) * sc.stepSeconds;
    assert k > j ==> (k - j) * sc.stepSeconds >= 1;
  }

  lemma UnixAtMonotone(sc: Scenario, x: NodeID, p: nat, q: nat)
    requires sc.IsSound() && sc.Known(x) && p <= q
    ensures Unix(sc.At(x, p)) <= Unix(sc.At(x, q))
    ensures sc.At(x, p) < sc.At(x, q) ==> Unix(sc.At(x, p)) < Unix(sc.At(x, q))
  {
    SampleMonotone(sc, x, p, q);
    UnixTimeMonotone(sc, Quotient(p, sc.Fleet(x)), Quotient(q, sc.Fleet(x)));
  }

  /** Observations of one ID in the same second belong to the same sample. */
  lemma SameSecond(sc: Scenario, x: NodeID, p: nat, q: nat)
    requires sc.IsSound() && sc.Known(x) && Unix(sc.At(x, p)) == Unix(sc.At(x, q))
    ensures sc.At(x, p) == sc.At(x, q)
  {
    var j, k := Quotient(p, sc.Fleet(x)), Quotient(q, sc.Fleet(x));
    if j < k {
      UnixTimeMonotone(sc, j, k);
    } else if k < j {
      UnixTimeMonotone(sc, k, j);
    }
  }

  /** Two different runs of one ID do not touch. */
  lemma RunsDisjoint(sc: Scenario, x: NodeID, b: nat, b': nat)
    requires sc.Known(x) && sc.Closes(x, b) && sc.Closes(x, b') && b < b'
    ensures sc.RunStart(x, b') > b
  {
    hide Scenario.Visible, Scenario.LongEnough;
    RunStartIsMaximal(sc, x, b');
  }

  /** Two closings of one ID in the same second are one: the later run would have no length. */
  lemma SameEnd(sc: Scenario, x: NodeID, b: nat, b': nat)
    requires sc.IsSound() && sc.Known(x) && sc.Closes(x, b) && sc.Closes(x, b') && b <= b'
    requires Unix(sc.At(x, b)) == Unix(sc.At(x, b'))
    ensures b == b'
  {
    hide Scenario.Visible, Scenario.At;
    if b < b' {
      RunsDisjoint(sc, x, b, b');
      SameSecond(sc, x, b, b');
      SampleMonotone(sc, x, b, sc.RunStart(x, b'));
    }
  }

  /** A run [a, b) of x that closes within n samples and lasts long enough. */
  ghost predicate IsPassRun(sc: Scenario, n: nat, x: NodeID, a: nat, b: nat) {
    sc.Known(x) && b < sc.Seen(x, n, 0) && sc.MaximalRun(x, a, b) && sc.LongEnough(x, a, b)
  }

  /** c is the window of that run, with its true extremes. */
  ghost predicate IsWindowOf(sc: Scenario, n: nat, c: PredictedContact, x: NodeID, a: nat, b: nat) {
    IsPassRun(sc, n, x, a, b) && sc.Describes(c, x, a, b)
  }

  ghost predicate IsWindowOfSomeRun(sc: Scenario, n: nat, c: PredictedContact) {
    exists x, a, b :: IsWindowOf(sc, n, c, x, a, b)
  }

  ghost predicate HasWindow(sc: Scenario, n: nat, out: seq<PredictedContact>, x: NodeID, a: nat, b: nat) {
    exists j :: 0 <= j < |out| && IsWindowOf(sc, n, out[j], x, a, b)
  }

  /** The output has exactly one window per maximal visible run that closes before the
      horizon and lasts the minimum duration, with the run's true extremes, and no others.
      Runs are those of an ID's observations, so stations may share an ID. */
  lemma WindowsAreExactlyTheLongRuns(sc: Scenario, n: nat, out: seq<PredictedContact>)
    requires sc.IsSound() && IsPrediction(sc, n, out)
    ensures forall j :: 0 <= j < |out| ==> IsWindowOfSomeRun(sc, n, out[j])
    ensures forall x, a, b :: IsPassRun(sc, n, x, a, b) <==> HasWindow(sc, n, out, x, a, b)
    ensures forall x, a, b, j, j' | 0 <= j < |out| && 0 <= j' < |out| &&
              IsWindowOf(sc, n, out[j], x, a, b) && IsWindowOf(sc, n, out[j'], x, a, b) :: j == j'
  {
    hide IsPrediction, Scenario.Describes;
    forall j | 0 <= j < |out| ensures IsWindowOfSomeRun(sc, n, out[j]) {
      EveryWindowIsARun(sc, n, out, j);
    }
    forall x, a, b | IsPassRun(sc, n, x, a, b) ensures HasWindow(sc, n, out, x, a, b) {
      EveryRunHasAWindow(sc, n, out, x, a, b);
    }
    forall x, a, b, j, j' | 0 <= j < |out| && 0 <= j' < |out| &&
      IsWindowOf(sc, n, out[j], x, a, b) && IsWindowOf(sc, n, out[j'], x, a, b)
      ensures j == j'
    {
      OneWindowPerRun(sc, n, out, x, a, b, j, j');
    }
  }

  lemma EveryWindowIsARun(sc: Scenario, n: nat, out: seq<PredictedContact>, j: nat)
    requires IsPrediction(sc, n, out) && j < |out|
    ensures IsWindowOfSomeRun(sc, n, out[j])
  {
    hide IsPrediction, Scenario.Closes, Scenario.Pass, Scenario.Describes, Scenario.Closings, Scenario.Seen;
    var p := Source(sc, n, out, out[j]);
    var (x, b) := sc.Closings(n, 0)[p];
    PassDescribes(sc, x, b, p + 1);
    assert IsWindowOf(sc, n, out[j], x, sc.RunStart(x, b), b);
  }

  lemma EveryRunHasAWindow(sc: Scenario, n: nat, out: seq<PredictedContact>, x: NodeID, a: nat, b: nat)
    requires IsPrediction(sc, n, out) && IsPassRun(sc, n, x, a, b)
    ensures HasWindow(sc, n, out, x, a, b)
  {
    hide Scenario.Closes, Scenario.Pass, Scenario.Describes, Scenario.Closings, Scenario.Seen;
    ClosesIsLongRun(sc, x, a, b);
    ClosingsExact(sc, n, 0);
    var src := sc.Closings(n, 0);
    assert (x, b) in src;
    var p :| 0 <= p < |src| && src[p] == (x, b);
    PassesDistinct(sc, n, out);
    var c := sc.Passes(src)[p];
    assert c in out;
    var j :| 0 <= j < |out| && out[j] == c;
    PassDescribes(sc, x, b, p + 1);
    assert IsWindowOf(sc, n, out[j], x, a, b);
  }

  lemma OneWindowPerRun(sc: Scenario, n: nat, out: seq<PredictedContact>,
                        x: NodeID, a: nat, b: nat, j: nat, j': nat)
    requires sc.IsSound() && IsPrediction(sc, n, out) && j < |out| && j' < |out|
    requires IsWindowOf(sc, n, out[j], x, a, b) && IsWindowOf(sc, n, out[j'], x, a, b)
    ensures j == j'
  {
    hide IsPrediction, Scenario.Closes, Scenario.Closings, Scenario.Seen, Scenario.At;
    var p := Source(sc, n, out, out[j]);
    var q := Source(sc, n, out, out[j']);
    var src := sc.Closings(n, 0);
    assert src[p].0 == x && src[q].0 == x;
    if src[p].1 <= src[q].1 {
      SameEnd(sc, x, src[p].1, src[q].1);
    } else {
      SameEnd(sc, x, src[q].1, src[p].1);
    }
    ClosingsExact(sc, n, 0);
    assert src[p] == src[q];
    PassesDistinct(sc, n, out);
  }

  // ------------------------------------------------------------- in terms of the sky

  /** The run of observations [a, b) in the sky's own terms: the elevation seen is at least the
      watching station's minimum throughout, below it just before and at b, b lies before the
      horizon, and the run takes the minimum duration. */
  lemma PassRunInTheSky(sc: Scenario, until: int, n: nat, x: NodeID, a: nat, b: nat)
    requires sc.IsSound() && SampleCount(sc, until, n) && sc.Known(x)
    ensures IsPassRun(sc, n, x, a, b) <==>
            && a < b && sc.At(x, b) < until
            && sc.At(x, b) - sc.At(x, a) >= sc.profile.minDuration * 1_000_000_000
            && (forall q :: a <= q < b ==>
                  sc.sky.elevation(sc.Watcher(x, q), sc.At(x, q)) >= sc.stations[sc.Watcher(x, q)].minElevation)
            && sc.sky.elevation(sc.Watcher(x, b), sc.At(x, b)) < sc.stations[sc.Watcher(x, b)].minElevation
            && (a > 0 ==> sc.sky.elevation(sc.Watcher(x, a - 1), sc.At(x, a - 1))
                          < sc.stations[sc.Watcher(x, a - 1)].minElevation)
  {
    hide Scenario.At, Scenario.Watcher, Scenario.Seen, SampleCount;
    SeenBeforeHorizon(sc, until, n, x, b);
    forall q ensures sc.Visible(x, q) <==>
      sc.sky.elevation(sc.Watcher(x, q), sc.At(x, q)) >= sc.stations[sc.Watcher(x, q)].minElevation
    {
    }
  }

  /** The minimum duration is one minute for LEO and five for cislunar orbits. */
  lemma LongEnoughMeans(sc: Scenario, x: NodeID, a: nat, b: nat)
    requires sc.Known(x)
    ensures sc.profile == LEO ==> (sc.LongEnough(x, a, b) <==> sc.At(x, b) - sc.At(x, a) >= 60_000_000_000)
    ensures sc.profile == CISLUNAR ==> (sc.LongEnough(x, a, b) <==> sc.At(x, b) - sc.At(x, a) >= 300_000_000_000)
  {
    hide Scenario.At;
  }

  lemma SeenBeforeHorizon(sc: Scenario, until: int, n: nat, x: NodeID, b: nat)
    requires sc.IsSound() && SampleCount(sc, until, n) && sc.Known(x)
    ensures b < sc.Seen(x, n, 0) <==> sc.At(x, b) < until
  {
    var k := Quotient(b, sc.Fleet(x));
    if b < sc.Seen(x, n, 0) {
      BeforeHorizon(sc, x, b, n);
      TimeMonotone(sc, k, n - 1);
    } else {
      QuotientAtLeast(b, n, sc.Fleet(x));
      TimeMonotone(sc, n, k);
    }
  }

  /** The window of a run in the sky's own terms: its seconds, the highest elevation, the largest
      Doppler shift of either sign, and the confidence of its start clipped to [0, 1]. */
  lemma WindowInTheSky(sc: Scenario, n: nat, c: PredictedContact, x: NodeID, a: nat, b: nat)
    requires IsWindowOf(sc, n, c, x, a, b)
    ensures c.window.remoteNode == x
    ensures c.window.startTime * 1_000_000_000 <= sc.At(x, a) < (c.window.startTime + 1) * 1_000_000_000
    ensures c.window.endTime * 1_000_000_000 <= sc.At(x, b) < (c.window.endTime + 1) * 1_000_000_000
    ensures exists q :: a <= q < b && c.maxElevation == sc.sky.elevation(sc.Watcher(x, q), sc.At(x, q))
    ensures forall q :: a <= q < b ==> sc.sky.elevation(sc.Watcher(x, q), sc.At(x, q)) <= c.maxElevation
    ensures exists q :: a <= q < b && (c.dopplerShift == sc.sky.doppler(sc.Watcher(x, q), sc.At(x, q)) ||
                                       c.dopplerShift == -sc.sky.doppler(sc.Watcher(x, q), sc.At(x, q)))
    ensures forall q :: a <= q < b ==>
              -c.dopplerShift <= sc.sky.doppler(sc.Watcher(x, q), sc.At(x, q)) <= c.dopplerShift
    ensures var raw := sc.sky.decay(c.window.startTime - sc.epoch);
            c.confidence == if raw <= 0.0 then 0.0 else if raw >= 1.0 then 1.0 else raw
  {
    hide Scenario.At, Scenario.Watcher, Scenario.Seen, Scenario.Visible;
    var e :| a <= e < b && sc.Elevation(x, e) == c.maxElevation;
    assert c.maxElevation == sc.sky.elevation(sc.Watcher(x, e), sc.At(x, e));
    var d :| a <= d < b && sc.Doppler(x, d) == c.dopplerShift;
    assert c.dopplerShift == sc.sky.doppler(sc.Watcher(x, d), sc.At(x, d)) ||
           c.dopplerShift == -sc.sky.doppler(sc.Watcher(x, d), sc.At(x, d));
    forall q | a <= q < b ensures sc.sky.elevation(sc.Watcher(x, q), sc.At(x, q)) <= c.maxElevation {
      assert sc.Elevation(x, q) <= c.maxElevation;
    }
    forall q | a <= q < b
      ensures -c.dopplerShift <= sc.sky.doppler(sc.Watcher(x, q), sc.At(x, q)) <= c.dopplerShift
    {
      assert sc.Doppler(x, q) <= c.dopplerShift;
    }
  }

  /** A LEO window lasts at least one minute and a cislunar one at least five, and each carries
      its profile's rate and link. */
  lemma PassesLastLongEnough(sc: Scenario, n: nat, out: seq<PredictedContact>, j: nat)
    requires sc.IsSound() && IsPrediction(sc, n, out) && j < |out|
    ensures sc.profile == LEO ==>
              out[j].window.endTime - out[j].window.startTime >= 60 &&
              out[j].window.dataRate == 9600 && out[j].window.linkType == UhfIq
    ensures sc.profile == CISLUNAR ==>
              out[j].window.endTime - out[j].window.startTime >= 300 &&
              out[j].window.dataRate == 500 && out[j].window.linkType == SBandIq
  {
    hide IsPrediction, Scenario.Visible, Scenario.Closings, Scenario.Seen;
    var p := Source(sc, n, out, out[j]);
    var (x, b) := sc.Closings(n, 0)[p];
    UnixTime(sc, Quotient(sc.RunStart(x, b), sc.Fleet(x)));
    UnixTime(sc, Quotient(b, sc.Fleet(x)));
    TimeOf(sc, Quotient(sc.RunStart(x, b), sc.Fleet(x)));
    TimeOf(sc, Quotient(b, sc.Fleet(x)));
  }

  lemma TimeOf(sc: Scenario, k: nat)
    ensures sc.Time(k) == sc.from + k * sc.stepSeconds * 1_000_000_000
  {
  }

  // ------------------------------------------------- predictions pass the validator

  lemma WindowIsWellFormed(sc: Scenario, until: int, n: nat, out: seq<PredictedContact>, j: nat)
    requires sc.IsSound() && SampleCount(sc, until, n) && IsPrediction(sc, n, out) && j < |out|
    ensures WindowFits(Unix(sc.from), Unix(until), out[j].window)
    ensures 0.0 <= out[j].confidence <= 1.0
  {
    hide IsPrediction, Scenario.Visible, Scenario.Closings;
    var p := Source(sc, n, out, out[j]);
    var (x, b) := sc.Closings(n, 0)[p];
    var a := sc.RunStart(x, b);
    assert sc.At(x, a) < sc.At(x, b);
    UnixAtMonotone(sc, x, a, b);
    UnixTimeMonotone(sc, 0, Quotient(a, sc.Fleet(x)));
    BeforeHorizon(sc, x, b, n);
    UnixTimeMonotone(sc, Quotient(b, sc.Fleet(x)), n - 1);
    assert sc.Time(0) == sc.from;
  }

  lemma BeforeHorizon(sc: Scenario, x: NodeID, b: nat, n: nat)
    requires sc.Known(x) && b < sc.Seen(x, n, 0)
    ensures Quotient(b, sc.Fleet(x)) < n
  {
    QuotientBound(b, n, sc.Fleet(x));
  }

  lemma WindowsDoNotClash(sc: Scenario, n: nat, out: seq<PredictedContact>, j: nat, k: nat)
    requires sc.IsSound() && IsPrediction(sc, n, out) && j < |out| && k < |out| && j != k
    ensures !Clash(out[j].window, out[k].window)
  {
    hide IsPrediction, Scenario.Closes, Scenario.Closings, Scenario.Seen, Scenario.At;
    var c, d := out[j].window, out[k].window;
    if c.remoteNode == d.remoteNode {
      var p := Source(sc, n, out, out[j]);
      var q := Source(sc, n, out, out[k]);
      var (x, b) := sc.Closings(n, 0)[p];
      var (_, b') := sc.Closings(n, 0)[q];
      PassesDistinct(sc, n, out);
      assert p != q;
      ClosingsExact(sc, n, 0);
      assert b != b';
      if b < b' {
        RunsDisjoint(sc, x, b, b');
        UnixAtMonotone(sc, x, b, sc.RunStart(x, b'));
      } else {
        RunsDisjoint(sc, x, b', b);
        UnixAtMonotone(sc, x, b', sc.RunStart(x, b));
      }
    }
  }

  function Windows(cs: seq<PredictedContact>): (ws: seq<ContactWindow>)
    ensures |ws| == |cs| && forall i :: 0 <= i < |cs| ==> ws[i] == cs[i].window
  {
    seq(|cs|, i requires 0 <= i < |cs| => cs[i].window)
  }

  /** The plan UpdateContactPlanWithPredictions builds. */
  function Extended(p: ContactPlan, cs: seq<PredictedContact>, params: OrbitalParameters): ContactPlan {
    p.(contacts := p.contacts + Windows(cs), predicted := cs, orbitalData := Some(params))
  }

  /** The predictions lie in the plan's range and none clashes with a contact already planned. */
  ghost predicate FitsInto(p: ContactPlan, cs: seq<PredictedContact>) {
    && (forall j :: 0 <= j < |cs| ==> WindowFits(p.validFrom, p.validTo, Windows(cs)[j]))
    && NoCrossClashes(p.contacts, Windows(cs))
  }

  ghost predicate NoCrossClashes(xs: seq<ContactWindow>, ys: seq<ContactWindow>) {
    forall i, j :: 0 <= i < |xs| && 0 <= j < |ys| ==> !Clash(xs[i], ys[j])
  }

  lemma NoClashesConcat(xs: seq<ContactWindow>, ys: seq<ContactWindow>)
    ensures NoClashes(xs + ys) <==> NoClashes(xs) && NoClashes(ys) && NoCrossClashes(xs, ys)
  {
    hide Clash;
    var zs, m := xs + ys, |xs|;
    assert forall i :: 0 <= i < m ==> zs[i] == xs[i];
    assert forall j :: 0 <= j < |ys| ==> zs[m + j] == ys[j];
    if NoClashes(zs) {
      forall i, j | 0 <= i < j < |ys| ensures !Clash(ys[i], ys[j]) {
        assert !Clash(zs[m + i], zs[m + j]);
      }
      forall i, j | 0 <= i < |xs| && 0 <= j < |ys| ensures !Clash(xs[i], ys[j]) {
        assert !Clash(zs[i], zs[m + j]);
      }
    }
  }

  lemma ExtensionValidity(p: ContactPlan, cs: seq<PredictedContact>, params: OrbitalParameters)
    requires ValidPlan(p) && NoClashes(Windows(cs))
    requires forall j :: 0 <= j < |cs| ==> 0.0 <= cs[j].confidence <= 1.0
    ensures ValidPlan(Extended(p, cs, params)) <==> FitsInto(p, cs)
  {
    hide Clash, WindowFits;
    NoClashesConcat(p.contacts, Windows(cs));
    var e, m := Extended(p, cs, params), |p.contacts|;
    if ValidPlan(e) {
      forall j | 0 <= j < |cs| ensures WindowFits(p.validFrom, p.validTo, Windows(cs)[j]) {
        assert WindowFits(e.validFrom, e.validTo, e.contacts[m + j]);
      }
    }
  }

  /** The extended plan is valid exactly when the predictions fit into the old one. */
  lemma ExtendedPlanValidExactly(
    sc: Scenario, until: int, n: nat, p: ContactPlan, cs: seq<PredictedContact>, params: OrbitalParameters)
    requires sc.IsSound() && SampleCount(sc, until, n) && IsPrediction(sc, n, cs) && ValidPlan(p)
    ensures ValidPlan(Extended(p, cs, params)) <==> FitsInto(p, cs)
  {
    hide IsPrediction, SampleCount, Clash, ValidPlan, FitsInto;
    forall j | 0 <= j < |cs|
      ensures WindowFits(Unix(sc.from), Unix(until), cs[j].window) && 0.0 <= cs[j].confidence <= 1.0
    {
      WindowIsWellFormed(sc, until, n, cs, j);
    }
    forall j, k | 0 <= j < k < |cs| ensures !Clash(Windows(cs)[j], Windows(cs)[k]) {
      WindowsDoNotClash(sc, n, cs, j, k);
    }
    ExtensionValidity(p, cs, params);
  }

  /** A valid plan without contacts whose range covers the horizon. */
  ghost predicate IsFresh(p: ContactPlan, from: int, until: int) {
    ValidPlan(p) && p.contacts == [] && p.validFrom <= Unix(from) && Unix(until) <= p.validTo
  }

  /** Prediction never invalidates a fresh plan. */
  lemma FreshPlanAccepted(sc: Scenario, params: OrbitalParameters, until: int, p: ContactPlan,
                          predicted: Result<seq<PredictedContact>, PredictError>, cs: seq<PredictedContact>)
    requires sc.IsSound() && IsOutcome(predicted, sc, params, until) && predicted == Ok(cs)
    requires IsFresh(p, sc.from, until)
    ensures ValidPlan(Extended(p, cs, params))
  {
    hide IsPrediction, ValidPlan;
    var n := Samples(sc, until);
    forall j | 0 <= j < |cs| ensures WindowFits(p.validFrom, p.validTo, Windows(cs)[j]) {
      WindowIsWellFormed(sc, until, n, cs, j);
    }
    ExtendedPlanValidExactly(sc, until, n, p, cs, params);
  }

  /** Confidence never rises along the list when it decays with time past the epoch. */
  lemma ConfidenceNeverRises(sc: Scenario, n: nat, out: seq<PredictedContact>, i: nat, j: nat)
    requires IsPrediction(sc, n, out) && i <= j < |out|
    requires forall s, t :: s <= t ==> sc.sky.decay(s) >= sc.sky.decay(t)
    ensures out[i].confidence >= out[j].confidence
  {
    var p := Source(sc, n, out, out[i]);
    var q := Source(sc, n, out, out[j]);
    var s, t := out[i].window.startTime, out[j].window.startTime;
    assert StartOf(out[i]) <= StartOf(out[j]);
    assert sc.sky.decay(s - sc.epoch) >= sc.sky.decay(t - sc.epoch);
  }

  // --------------------------------------------------------------- the plan update

  /** UpdateContactPlanWithPredictions: LEO profile, 30-second step. The plan is replaced even
      when the result is an error, exactly as the code does before it re-validates. */
  method UpdateContactPlanWithPredictions(
    cpm: ContactPlanManager, node: NodeID, params: OrbitalParameters, stations: seq<Station>,
    from: int, until: int, sky: Sky)
    returns (r: Result<(), PlanError>, ghost predicted: Result<seq<PredictedContact>, PredictError>)
    modifies cpm
    ensures IsOutcome(predicted, ScenarioOf(LEO, params, stations, from, 30, sky), params, until)
    ensures predicted.Err? ==> r == Err(PredictionFailed)
    ensures predicted.Ok? && old(cpm.plan).None? ==> r == Err(NoPlan)
    ensures predicted.Err? || old(cpm.plan).None? ==>
              cpm.plan == old(cpm.plan) && cpm.orbitalParams == old(cpm.orbitalParams)
    ensures predicted.Ok? && old(cpm.plan).Some? ==>
              && cpm.plan == Some(Extended(old(cpm.plan).value, predicted.value, params))
              && cpm.orbitalParams == old(cpm.orbitalParams)[node := params]
              && (r.Ok? <==> ValidPlan(cpm.plan.value)) && (r.Err? ==> Explains(r.error, cpm.plan.value))
    ensures predicted.Ok? && old(cpm.plan).Some? && IsFresh(old(cpm.plan).value, from, until) ==> r.Ok?
  {
    var passes := Predict(LEO, params, stations, from, until, 30, sky);
    predicted := passes;
    if passes.Err? {
      return Err(PredictionFailed), predicted;
    }
    if cpm.plan.None? {
      return Err(NoPlan), predicted;
    }
    var cs := passes.value;
    ghost var sc := ScenarioOf(LEO, params, stations, from, 30, sky);
    if IsFresh(cpm.plan.value, from, until) {
      FreshPlanAccepted(sc, params, until, cpm.plan.value, predicted, cs);
    }
    hide *;
    cpm.orbitalParams := cpm.orbitalParams[node := params];
    var plan := cpm.plan.value;
    var contacts := plan.contacts;
    for i := 0 to |cs|
      invariant contacts == plan.contacts + Windows(cs)[..i]
    {
      contacts := contacts + [cs[i].window];
    }
    assert Windows(cs)[..|cs|] == Windows(cs);
    plan := plan.(contacts := contacts, predicted := cs, orbitalData := Some(params));
    cpm.plan := Some(plan);
    r := Validate(plan);
  }
}
