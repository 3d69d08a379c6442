/** Contact prediction as a multi-station edge detector (pkg/contact/cgr.go). Orbit
    propagation enters as two arbitrary functions of station and instant. */
module Prediction {
  import opened Prelude
  import opened Contact
  import opened Sorting

  const SECOND := 1_000_000_000   // instants are nanoseconds

  /** time.Time.Unix: whole seconds, rounded down. */
  function Unix(instant: int): int { instant / SECOND }

  datatype Station = Station(id: NodeID, latitude: real, longitude: real, minElevation: real)
  {
    predicate IsValid() {
      -90.0 <= latitude <= 90.0 && -180.0 <= longitude <= 180.0 && 0.0 <= minElevation <= 90.0
    }
  }

  /** What PredictLEOPasses and PredictCislunarPasses do not share. */
  datatype Profile = Profile(minDuration: nat, dataRate: int, linkType: LinkType, defaultStep: nat)

  const LEO := Profile(60, 9600, UhfIq, 30)
  const CISLUNAR := Profile(300, 500, SBandIq, 60)

  /** Elevation and Doppler per station index and instant; confidence decay per second past epoch. */
  datatype Sky = Sky(elevation: (nat, int) -> real, doppler: (nat, int) -> real, decay: int -> real)

  function Clamp(x: real): real {
    if x < 0.0 then 0.0 else if x > 1.0 then 1.0 else x
  }

  function Abs(x: real): real {
    if x < 0.0 then -x else x
  }

  /** q divided by m, and the remainder, by repeated subtraction. */
  function Quotient(q: nat, m: nat): nat
    requires m > 0
  {
    if q < m then 0 else 1 + Quotient(q - m, m)
  }

  function Remainder(q: nat, m: nat): (r: nat)
    requires m > 0
    ensures r < m
  {
    if q < m then q else Remainder(q - m, m)
  }

  datatype Scenario = Scenario(
    profile: Profile, stations: seq<Station>, from: int, stepSeconds: int, epoch: int, sky: Sky)
  {
    predicate IsSound() {
      stepSeconds > 0 && profile.minDuration > 0 && profile.dataRate > 0
    }

    function Time(k: nat): int { from + k * stepSeconds * SECOND }

    // ------------------------------------------------------ the observations of an ID
    // Stations with one ID share one tracking state, so a run is a run of the ID's
    // observations: sample by sample, and within a sample in station order.

    /** The stations below hi with ID x. */
    function Members(x: NodeID, hi: nat): (r: seq<nat>)
      requires hi <= |stations|
      ensures |r| <= hi && forall p :: 0 <= p < |r| ==> r[p] < hi && stations[r[p]].id == x
    {
      if hi == 0 then [] else Members(x, hi - 1) + if stations[hi - 1].id == x then [hi - 1] else []
    }

    function Fleet(x: NodeID): nat { |Members(x, |stations|)| }

    predicate Known(x: NodeID) { Fleet(x) > 0 }

    /** How many observations of x come before station i of sample k. */
    function Seen(x: NodeID, k: nat, i: nat): nat
      requires i <= |stations|
    {
      k * Fleet(x) + |Members(x, i)|
    }

    /** The station that makes observation q of x, and when. */
    function Watcher(x: NodeID, q: nat): (i: nat)
      requires Known(x)
      ensures i < |stations| && stations[i].id == x
    {
      Members(x, |stations|)[Remainder(q, Fleet(x))]
    }

    function At(x: NodeID, q: nat): int
      requires Known(x)
    {
      Time(Quotient(q, Fleet(x)))
    }

    function Elevation(x: NodeID, q: nat): real
      requires Known(x)
    {
      sky.elevation(Watcher(x, q), At(x, q))
    }

    function Doppler(x: NodeID, q: nat): real
      requires Known(x)
    {
      Abs(sky.doppler(Watcher(x, q), At(x, q)))
    }

    predicate Visible(x: NodeID, q: nat)
      requires Known(x)
    {
      Elevation(x, q) >= stations[Watcher(x, q)].minElevation
    }

    /** First observation of the visible run that reaches up to observation q. */
    function RunStart(x: NodeID, q: nat): (a: nat)
      requires Known(x)
      ensures a <= q
    {
      if q > 0 && Visible(x, q - 1) then RunStart(x, q - 1) else q
    }

    function PeakElevation(x: NodeID, a: nat, b: nat): real
      requires Known(x) && a < b
    {
      if b == a + 1 then Elevation(x, a)
      else
        var m := PeakElevation(x, a, b - 1);
        if Elevation(x, b - 1) > m then Elevation(x, b - 1) else m
    }

    function PeakDoppler(x: NodeID, a: nat, b: nat): real
      requires Known(x) && a < b
    {
      if b == a + 1 then Doppler(x, a)
      else
        var m := PeakDoppler(x, a, b - 1);
        if Doppler(x, b - 1) > m then Doppler(x, b - 1) else m
    }

    predicate LongEnough(x: NodeID, a: nat, b: nat)
      requires Known(x)
    {
      At(x, b) - At(x, a) >= profile.minDuration * SECOND
    }

    /** A falling edge at observation b that ends a run of at least the minimum duration. */
    predicate Closes(x: NodeID, b: nat)
      requires Known(x)
    {
      b > 0 && Visible(x, b - 1) && !Visible(x, b) && LongEnough(x, RunStart(x, b), b)
    }

    function Confidence(start: int): real { Clamp(sky.decay(start - epoch)) }

    function Pass(x: NodeID, b: nat, id: nat): PredictedContact
      requires Known(x) && Closes(x, b)
    {
      var a := RunStart(x, b);
      PredictedContact(
        ContactWindow(id, x, Unix(At(x, a)), Unix(At(x, b)), profile.dataRate, profile.linkType),
        PeakElevation(x, a, b), PeakDoppler(x, a, b), Confidence(Unix(At(x, a))))
    }

    // ------------------------------------------------------------ emission order

    /** Every closing before station i of sample k, in the order the two loops meet them. */
    function Closings(k: nat, i: nat): (src: seq<(NodeID, nat)>)
      requires i <= |stations|
      decreases k, i
    {
      if i > 0 then
        var x := stations[i - 1].id;
        var q := Seen(x, k, i - 1);
        Closings(k, i - 1) + if Known(x) && Closes(x, q) then [(x, q)] else []
      else if k > 0 then Closings(k - 1, |stations|)
      else []
    }

    ghost predicate AllClose(src: seq<(NodeID, nat)>) {
      forall p :: 0 <= p < |src| ==> Known(src[p].0) && Closes(src[p].0, src[p].1)
    }

    /** The passes of those closings, numbered from 1. */
    ghost function Passes(src: seq<(NodeID, nat)>): (r: seq<PredictedContact>)
      requires AllClose(src)
      ensures |r| == |src|
      ensures forall p :: 0 <= p < |src| ==> r[p] == Pass(src[p].0, src[p].1, p + 1)
    {
      seq(|src|, p requires 0 <= p < |src| => Pass(src[p].0, src[p].1, p + 1))
    }

    // ----------------------------------------------------- the independent statement

    /** A maximal run of visible observations [a, b) that has closed. */
    ghost predicate MaximalRun(x: NodeID, a: nat, b: nat)
      requires Known(x)
    {
      && a < b && (forall q :: a <= q < b ==> Visible(x, q))
      && !Visible(x, b) && (a > 0 ==> !Visible(x, a - 1))
    }

    /** The contact is the window of the run [a, b) of x, with its true extremes. */
    ghost predicate Describes(c: PredictedContact, x: NodeID, a: nat, b: nat)
      requires Known(x)
    {
      && c.window.remoteNode == x
      && c.window.startTime == Unix(At(x, a)) && c.window.endTime == Unix(At(x, b))
      && c.window.dataRate == profile.dataRate && c.window.linkType == profile.linkType
      && (exists q :: a <= q < b && Elevation(x, q) == c.maxElevation)
      && (forall q :: a <= q < b ==> Elevation(x, q) <= c.maxElevation)
      && (exists q :: a <= q < b && Doppler(x, q) == c.dopplerShift)
      && (forall q :: a <= q < b ==> Doppler(x, q) <= c.dopplerShift)
      && c.confidence == Confidence(c.window.startTime)
    }
  }

  /** n samples are taken before the horizon `until`: the loop's own stopping condition. */
  predicate SampleCount(sc: Scenario, until: int, n: nat) {
    sc.Time(n) >= until && (n > 0 ==> sc.Time(n - 1) < until)
  }

  /** There is exactly one such n. */
  ghost function Samples(sc: Scenario, until: int): (n: nat)
    requires sc.stepSeconds > 0
    ensures SampleCount(sc, until, n)
  {
    SampleCountExists(sc, until, 0);
    var n: nat :| SampleCount(sc, until, n) && forall m: nat | SampleCount(sc, until, m) :: m == n;
    n
  }

  lemma SampleCountExists(sc: Scenario, until: int, k: nat)
    requires sc.stepSeconds > 0 && (k > 0 ==> sc.Time(k - 1) < until)
    ensures exists n: nat :: SampleCount(sc, until, n) && forall m: nat | SampleCount(sc, until, m) :: m == n
    decreases until - sc.Time(k)
  {
    TimeStep(sc, k);
    if sc.Time(k) < until {
      SampleCountExists(sc, until, k + 1);
    } else {
      assert SampleCount(sc, until, k);
      forall m: nat | SampleCount(sc, until, m) ensures m == k {
        SampleCountUnique(sc, until, k, m);
      }
    }
  }

  lemma SampleCountUnique(sc: Scenario, until: int, n: nat, m: nat)
    requires sc.stepSeconds > 0 && SampleCount(sc, until, n) && SampleCount(sc, until, m)
    ensures n == m
  {
    if n < m {
      TimeMonotone(sc, n, m - 1);
    } else if m < n {
      TimeMonotone(sc, m, n - 1);
    }
  }

  lemma TimeMonotone(sc: Scenario, j: nat, k: nat)
    requires sc.stepSeconds > 0 && j <= k
    ensures sc.Time(j) <= sc.Time(k)
  {
    assert k * sc.stepSeconds == j * sc.stepSeconds + (k - j) * sc.stepSeconds;
  }

  function StartOf(c: PredictedContact): int { c.window.startTime }

  /** A start-sorted permutation of the passes of n samples; sort.Slice promises no more on ties. */
  ghost predicate IsPrediction(sc: Scenario, n: nat, out: seq<PredictedContact>) {
    && sc.AllClose(sc.Closings(n, 0))
    && SortedBy(out, StartOf)
    && multiset(out) == multiset(sc.Passes(sc.Closings(n, 0)))
  }

  // ------------------------------------------------------------- whose turn it is

  lemma {:induction false} DivideBack(k: nat, m: nat, r: nat)
    requires r < m
    ensures Quotient(k * m + r, m) == k && Remainder(k * m + r, m) == r
  {
    if k > 0 {
      DivideBack(k - 1, m, r);
      assert k * m + r == (k - 1) * m + r + m;
    }
  }

  lemma {:induction false} QuotientMonotone(p: nat, q: nat, m: nat)
    requires p <= q && m > 0
    ensures Quotient(p, m) <= Quotient(q, m)
  {
    if p >= m {
      QuotientMonotone(p - m, q - m, m);
    }
  }

  lemma {:induction false} QuotientBound(q: nat, k: nat, m: nat)
    requires m > 0 && q < k * m
    ensures Quotient(q, m) < k
  {
    if q >= m {
      assert (k - 1) * m == k * m - m;
      QuotientBound(q - m, k - 1, m);
    } else {
      assert k > 0;
    }
  }

  lemma {:induction false} QuotientAtLeast(q: nat, k: nat, m: nat)
    requires m > 0 && q >= k * m
    ensures Quotient(q, m) >= k
  {
    if k > 0 {
      assert (k - 1) * m == k * m - m;
      assert k * m >= m;
      QuotientAtLeast(q - m, k - 1, m);
    }
  }

  lemma {:induction false} MembersExtend(sc: Scenario, x: NodeID, i: nat, hi: nat)
    requires i <= hi <= |sc.stations|
    ensures sc.Members(x, i) <= sc.Members(x, hi)
  {
    if i < hi {
      MembersExtend(sc, x, i, hi - 1);
    }
  }

  /** Station i of sample k makes the observation of its ID that is then due. */
  lemma TurnOf(sc: Scenario, i: nat, k: nat)
    requires i < |sc.stations|
    ensures var x := sc.stations[i].id;
            var q := sc.Seen(x, k, i);
            sc.Known(x) && sc.Watcher(x, q) == i && sc.At(x, q) == sc.Time(k) && sc.Seen(x, k, i + 1) == q + 1
  {
    var x := sc.stations[i].id;
    assert sc.Members(x, i + 1) == sc.Members(x, i) + [i];
    MembersExtend(sc, x, i + 1, |sc.stations|);
    DivideBack(k, sc.Fleet(x), |sc.Members(x, i)|);
  }

  /** After the last station of a sample the next sample's turn begins. */
  lemma SampleOver(sc: Scenario, x: NodeID, k: nat)
    ensures sc.Seen(x, k, |sc.stations|) == sc.Seen(x, k + 1, 0)
  {
    assert (k + 1) * sc.Fleet(x) == k * sc.Fleet(x) + sc.Fleet(x);
  }

  /** With one station per ID, observation k of an ID is sample k of its station. */
  lemma DistinctStations(sc: Scenario, i: nat, k: nat)
    requires i < |sc.stations|
    requires forall j :: 0 <= j < |sc.stations| && j != i ==> sc.stations[j].id != sc.stations[i].id
    ensures var x := sc.stations[i].id;
            var instant := sc.from + k * sc.stepSeconds * 1_000_000_000;
            sc.Known(x) && sc.Watcher(x, k) == i && sc.At(x, k) == instant
            && sc.Elevation(x, k) == sc.sky.elevation(i, instant)
  {
    var x := sc.stations[i].id;
    OnlyMember(sc, i, |sc.stations|);
    TurnOf(sc, i, k);
    OnlyMember(sc, i, i);
    assert sc.Seen(x, k, i) == k;
  }

  lemma {:induction false} OnlyMember(sc: Scenario, i: nat, hi: nat)
    requires i < |sc.stations| && hi <= |sc.stations|
    requires forall j :: 0 <= j < |sc.stations| && j != i ==> sc.stations[j].id != sc.stations[i].id
    ensures sc.Members(sc.stations[i].id, hi) == if i < hi then [i] else []
  {
    if hi > 0 {
      OnlyMember(sc, i, hi - 1);
    }
  }

  // --------------------------------------------------------------------- the loops

  datatype PredictError = BadOrbit | FromAfterTo | BadStation(i: nat)

  datatype ContactState = ContactState(
    inContact: bool, contactStart: int, maxElevation: real, maxDoppler: real)

  /** The state of x after its first q observations. */
  ghost predicate Tracks(sc: Scenario, st: ContactState, x: NodeID, q: nat)
    requires sc.Known(x)
  {
    && (st.inContact <==> q > 0 && sc.Visible(x, q - 1))
    && (st.inContact ==>
          var a := sc.RunStart(x, q);
          a < q && st.contactStart == sc.At(x, a) &&
          st.maxElevation == sc.PeakElevation(x, a, q) && st.maxDoppler == sc.PeakDoppler(x, a, q))
  }

  /** Every ID's state is up to date before station i of sample k. */
  ghost predicate AllTrack(sc: Scenario, states: map<NodeID, ContactState>, k: nat, i: nat)
    requires i <= |sc.stations|
  {
    forall x :: sc.Known(x) ==> x in states && Tracks(sc, states[x], x, sc.Seen(x, k, i))
  }

  /** The per-sample body for one station: the new state, and the pass that ends here, if any. */
  method Observe(sc: Scenario, st: ContactState, i: nat, currentTime: int, contactID: nat, ghost k: nat)
    returns (after: ContactState, pass: Option<PredictedContact>)
    requires i < |sc.stations| && currentTime == sc.Time(k) && sc.Known(sc.stations[i].id)
    requires Tracks(sc, st, sc.stations[i].id, sc.Seen(sc.stations[i].id, k, i))
    ensures var x := sc.stations[i].id;
            var q := sc.Seen(x, k, i);
            && Tracks(sc, after, x, q + 1)
            && pass == if sc.Closes(x, q) then Some(sc.Pass(x, q, contactID)) else None
  {
    var station := sc.stations[i];
    ghost var x, q := station.id, sc.Seen(station.id, k, i);
    TurnOf(sc, i, k);
    hide Scenario.Watcher, Scenario.At, Scenario.Seen;
    var elevation := sc.sky.elevation(i, currentTime);
    var isVisible := elevation >= station.minElevation;
    assert isVisible == sc.Visible(x, q);
    after, pass := st, None;
    if isVisible && !st.inContact {
      var doppler := sc.sky.doppler(i, currentTime);
      after := ContactState(true, currentTime, elevation, Abs(doppler));
      assert sc.RunStart(x, q + 1) == sc.RunStart(x, q);
    } else if isVisible && st.inContact {
      var doppler := sc.sky.doppler(i, currentTime);
      if elevation > st.maxElevation {
        after := after.(maxElevation := elevation);
      }
      if Abs(doppler) > st.maxDoppler {
        after := after.(maxDoppler := Abs(doppler));
      }
    } else if !isVisible && st.inContact {
      var duration := currentTime - st.contactStart;
      if duration >= sc.profile.minDuration * SECOND {
        pass := Some(PredictedContact(
          ContactWindow(contactID, station.id, Unix(st.contactStart), Unix(currentTime),
                        sc.profile.dataRate, sc.profile.linkType),
          st.maxElevation, st.maxDoppler, sc.Confidence(Unix(st.contactStart))));
      }
      after := ContactState(false, st.contactStart, 0.0, 0.0);
    }
  }

  /** What a run of a predictor stands for; a step of zero or less selects the profile's default. */
  function ScenarioOf(profile: Profile, params: OrbitalParameters, stations: seq<Station>,
                      from: int, timeStep: int, sky: Sky): (sc: Scenario)
    requires profile == LEO || profile == CISLUNAR
    ensures sc.IsSound()
  {
    Scenario(profile, stations, from, if timeStep <= 0 then profile.defaultStep else timeStep, params.epoch, sky)
  }

  /** A step of zero or less means 30 seconds for LEO and 60 for cislunar orbits. */
  lemma DefaultSteps(params: OrbitalParameters, stations: seq<Station>, from: int, timeStep: int, sky: Sky)
    ensures ScenarioOf(LEO, params, stations, from, timeStep, sky).stepSeconds == if timeStep > 0 then timeStep else 30
    ensures ScenarioOf(CISLUNAR, params, stations, from, timeStep, sky).stepSeconds
            == if timeStep > 0 then timeStep else 60
  {
  }

  /** What is turned away: stations off the globe or with an impossible minimum, and orbits that
      are open, inside the Earth, or tilted past a half turn. */
  lemma InputsRejected(station: Station, params: OrbitalParameters)
    ensures !station.IsValid() <==>
            || station.latitude < -90.0 || station.latitude > 90.0
            || station.longitude < -180.0 || station.longitude > 180.0
            || station.minElevation < 0.0 || station.minElevation > 90.0
    ensures !params.IsValid() <==>
            || params.eccentricity < 0.0 || params.eccentricity >= 1.0 || params.semiMajorAxisM <= 6371000.0
            || params.inclination < 0.0 || params.inclination > 180.0
  {
  }

  /** The outcome of a prediction: the first check that fails, or a prediction up to the horizon. */
  ghost predicate IsOutcome(r: Result<seq<PredictedContact>, PredictError>, sc: Scenario,
                            params: OrbitalParameters, until: int)
    requires sc.stepSeconds > 0
  {
    if r.Err? then
      match r.error
      case BadOrbit => !params.IsValid()
      case FromAfterTo => params.IsValid() && sc.from > until
      case BadStation(i) =>
        params.IsValid() && sc.from <= until && i < |sc.stations| && !sc.stations[i].IsValid() &&
        forall j :: 0 <= j < i ==> sc.stations[j].IsValid()
    else
      && params.IsValid() && sc.from <= until && (forall i :: 0 <= i < |sc.stations| ==> sc.stations[i].IsValid())
      && IsPrediction(sc, Samples(sc, until), r.value)
  }

  method Predict(profile: Profile, params: OrbitalParameters, stations: seq<Station>,
                 from: int, until: int, timeStep: int, sky: Sky)
    returns (r: Result<seq<PredictedContact>, PredictError>)
    requires profile == LEO || profile == CISLUNAR
    ensures IsOutcome(r, ScenarioOf(profile, params, stations, from, timeStep, sky), params, until)
  {
    var step := timeStep;
    if step <= 0 {
      step := profile.defaultStep;
    }
    var sc := Scenario(profile, stations, from, step, params.epoch, sky);
    if !params.IsValid() {
      return Err(BadOrbit);
    }
    if from > until {
      return Err(FromAfterTo);
    }
    for i := 0 to |stations|
      invariant forall j :: 0 <= j < i ==> stations[j].IsValid()
    {
      if !stations[i].IsValid() {
        return Err(BadStation(i));
      }
    }
    var contacts := DetectPasses(sc, until);
    var sorted := SortBy(contacts, StartOf);
    r := Ok(sorted);
  }

  /** The dispatch on orbit type: below 8000 km semi-major axis is LEO. */
  method PredictPasses(params: OrbitalParameters, stations: seq<Station>,
                       from: int, until: int, timeStep: int, sky: Sky)
    returns (r: Result<seq<PredictedContact>, PredictError>)
    ensures var profile := if params.semiMajorAxisM < 8_000_000.0 then LEO else CISLUNAR;
            IsOutcome(r, ScenarioOf(profile, params, stations, from, timeStep, sky), params, until)
  {
    var semiMajorAxisKm := params.semiMajorAxisM / 1000.0;
    if semiMajorAxisKm < 8000.0 {
      r := Predict(LEO, params, stations, from, until, timeStep, sky);
    } else {
      r := Predict(CISLUNAR, params, stations, from, until, timeStep, sky);
    }
  }

  /** The detector before station i of sample k. */
  ghost predicate Detected(sc: Scenario, states: map<NodeID, ContactState>, contacts: seq<PredictedContact>,
                           k: nat, i: nat)
    requires i <= |sc.stations|
  {
    && AllTrack(sc, states, k, i)
    && sc.AllClose(sc.Closings(k, i))
    && contacts == sc.Passes(sc.Closings(k, i))
  }

  /** The time loop over the station loop, before the final sort. */
  method DetectPasses(sc: Scenario, until: int) returns (contacts: seq<PredictedContact>)
    requires sc.stepSeconds > 0 && sc.from <= until
    ensures var closings := sc.Closings(Samples(sc, until), 0);
            sc.AllClose(closings) && contacts == sc.Passes(closings)
  {
    var states := InitialStates(sc);
    contacts := [];
    var currentTime := sc.from;
    ghost var n := 0;
    assert sc.Closings(0, 0) == [] && sc.Passes([]) == [];
    while currentTime < until
      invariant currentTime == sc.Time(n) && (n > 0 ==> sc.Time(n - 1) < until)
      invariant Detected(sc, states, contacts, n, 0)
      decreases until - currentTime
    {
      states, contacts := SampleStations(sc, states, contacts, currentTime, n);
      TimeStep(sc, n);
      currentTime := currentTime + sc.stepSeconds * SECOND;
      n := n + 1;
    }
    SampleCountUnique(sc, until, n, Samples(sc, until));
  }

  method InitialStates(sc: Scenario) returns (states: map<NodeID, ContactState>)
    ensures AllTrack(sc, states, 0, 0)
  {
    var idle := ContactState(false, 0, 0.0, 0.0);
    states := map[];
    for i := 0 to |sc.stations|
      invariant forall j :: 0 <= j < i ==> sc.stations[j].id in states
      invariant forall id :: id in states ==> states[id] == idle
    {
      states := states[sc.stations[i].id := idle];
    }
    forall x | sc.Known(x) ensures x in states && Tracks(sc, states[x], x, sc.Seen(x, 0, 0)) {
      assert sc.stations[sc.Watcher(x, 0)].id == x;
    }
  }

  /** The station loop at one sample; the next contact ID is one past the number emitted. */
  method SampleStations(sc: Scenario, before: map<NodeID, ContactState>, emitted: seq<PredictedContact>,
                        currentTime: int, ghost k: nat)
    returns (states: map<NodeID, ContactState>, contacts: seq<PredictedContact>)
    requires Detected(sc, before, emitted, k, 0) && currentTime == sc.Time(k)
    ensures Detected(sc, states, contacts, k + 1, 0)
  {
    hide Tracks, Detected;
    states, contacts := before, emitted;
    for i := 0 to |sc.stations|
      invariant Detected(sc, states, contacts, k, i)
    {
      var id := sc.stations[i].id;
      ghost var earlier, soFar := states, contacts;
      DetectedState(sc, states, contacts, k, i);
      var after, pass := Observe(sc, states[id], i, currentTime, |contacts| + 1, k);
      states := states[id := after];
      match pass {
        case None =>
        case Some(c) => contacts := contacts + [c];
      }
      DetectedStep(sc, earlier, soFar, k, i, after, pass);
    }
    DetectedSample(sc, states, contacts, k);
  }

  lemma DetectedState(sc: Scenario, states: map<NodeID, ContactState>, contacts: seq<PredictedContact>,
                      k: nat, i: nat)
    requires i < |sc.stations| && Detected(sc, states, contacts, k, i)
    ensures var x := sc.stations[i].id;
            sc.Known(x) && x in states && Tracks(sc, states[x], x, sc.Seen(x, k, i))
  {
    hide Tracks;
    TurnOf(sc, i, k);
  }

  lemma DetectedSample(sc: Scenario, states: map<NodeID, ContactState>, contacts: seq<PredictedContact>, k: nat)
    requires Detected(sc, states, contacts, k, |sc.stations|)
    ensures Detected(sc, states, contacts, k + 1, 0)
  {
    hide Tracks;
    forall x | sc.Known(x) ensures x in states && Tracks(sc, states[x], x, sc.Seen(x, k + 1, 0)) {
      SampleOver(sc, x, k);
    }
    assert sc.Closings(k + 1, 0) == sc.Closings(k, |sc.stations|);
  }

  lemma DetectedStep(sc: Scenario, states: map<NodeID, ContactState>, contacts: seq<PredictedContact>,
                     k: nat, i: nat, after: ContactState, pass: Option<PredictedContact>)
    requires i < |sc.stations| && Detected(sc, states, contacts, k, i) && sc.Known(sc.stations[i].id)
    requires var x := sc.stations[i].id;
             var q := sc.Seen(x, k, i);
             Tracks(sc, after, x, q + 1) &&
             pass == if sc.Closes(x, q) then Some(sc.Pass(x, q, |contacts| + 1)) else None
    ensures Detected(sc, states[sc.stations[i].id := after],
                     if pass.Some? then contacts + [pass.value] else contacts, k, i + 1)
  {
    hide Tracks, AllTrack, Scenario.Closes, Scenario.Pass, Scenario.Seen, Scenario.AllClose, Scenario.Passes;
    var x := sc.stations[i].id;
    var q := sc.Seen(x, k, i);
    TrackStep(sc, states, k, i, after);
    var src, next := sc.Closings(k, i), sc.Closings(k, i + 1);
    if sc.Closes(x, q) {
      assert next == src + [(x, q)];
      PassesSnoc(sc, src, x, q);
    } else {
      assert next == src;
    }
  }

  lemma TrackStep(sc: Scenario, states: map<NodeID, ContactState>, k: nat, i: nat, after: ContactState)
    requires i < |sc.stations| && AllTrack(sc, states, k, i) && sc.Known(sc.stations[i].id)
    requires Tracks(sc, after, sc.stations[i].id, sc.Seen(sc.stations[i].id, k, i) + 1)
    ensures AllTrack(sc, states[sc.stations[i].id := after], k, i + 1)
  {
    hide Tracks, Scenario.Seen;
    var x := sc.stations[i].id;
    TurnOf(sc, i, k);
    forall y | sc.Known(y) && y != x ensures sc.Seen(y, k, i + 1) == sc.Seen(y, k, i) {
      NotItsTurn(sc, y, k, i);
    }
  }

  lemma NotItsTurn(sc: Scenario, y: NodeID, k: nat, i: nat)
    requires i < |sc.stations| && sc.stations[i].id != y
    ensures sc.Seen(y, k, i + 1) == sc.Seen(y, k, i)
  {
  }

  lemma PassesSnoc(sc: Scenario, src: seq<(NodeID, nat)>, x: NodeID, b: nat)
    requires sc.AllClose(src) && sc.Known(x) && sc.Closes(x, b)
    ensures sc.AllClose(src + [(x, b)])
    ensures sc.Passes(src + [(x, b)]) == sc.Passes(src) + [sc.Pass(x, b, |src| + 1)]
  {
    hide Scenario.Closes, Scenario.Pass;
  }

  lemma TimeStep(sc: Scenario, k: nat)
    ensures sc.Time(k + 1) == sc.Time(k) + sc.stepSeconds * SECOND
  {
    assert (k + 1) * sc.stepSeconds == k * sc.stepSeconds + sc.stepSeconds;
  }
}
