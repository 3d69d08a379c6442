/** Contact windows, the plan validator and the plan manager
    (pkg/contact/types.go, pkg/contact/manager.go). */
module Contact {
  import opened Prelude

  type NodeID = string

  datatype LinkType = Vhf | UhfTnc | UhfIqB200 | UhfIq | SBandIq | XBandIq

  datatype ContactWindow = ContactWindow(
    contactID: nat, remoteNode: NodeID, startTime: int, endTime: int, dataRate: int, linkType: LinkType)
  {
    predicate IsActive(t: int) { startTime <= t < endTime }
  }

  datatype PredictedContact = PredictedContact(
    window: ContactWindow, maxElevation: real, dopplerShift: real, confidence: real)

  datatype OrbitalParameters = OrbitalParameters(
    epoch: int, semiMajorAxisM: real, eccentricity: real, inclination: real)
  {
    predicate IsValid() {
      0.0 <= eccentricity < 1.0 && semiMajorAxisM > 6371000.0 && 0.0 <= inclination <= 180.0
    }
  }

  datatype ContactPlan = ContactPlan(
    validFrom: int, validTo: int, contacts: seq<ContactWindow>, predicted: seq<PredictedContact>,
    orbitalData: Option<OrbitalParameters>)

  datatype PlanError =
    | RangeInverted
    | OutsideRange(i: nat)
    | BadTimes(i: nat)
    | BadDataRate(i: nat)
    | Overlap(i: nat, j: nat)
    | BadConfidence(i: nat)
    | NoPlan
    | PredictionFailed

  // ----------------------------------------------------------------- plan validity

  predicate WindowFits(validFrom: int, validTo: int, c: ContactWindow) {
    validFrom <= c.startTime < c.endTime <= validTo && c.dataRate > 0
  }

  predicate Clash(c1: ContactWindow, c2: ContactWindow) {
    c1.remoteNode == c2.remoteNode && c1.startTime < c2.endTime && c2.startTime < c1.endTime
  }

  predicate NoClashes(cs: seq<ContactWindow>) {
    forall i, j :: 0 <= i < j < |cs| ==> !Clash(cs[i], cs[j])
  }

  predicate ValidPlan(p: ContactPlan) {
    && p.validFrom < p.validTo
    && (forall i :: 0 <= i < |p.contacts| ==> WindowFits(p.validFrom, p.validTo, p.contacts[i]))
    && NoClashes(p.contacts)
    && (forall i :: 0 <= i < |p.predicted| ==> 0.0 <= p.predicted[i].confidence <= 1.0)
  }

  /** Validity in terms of instants: windows have a length, lie in the plan's range and carry
      data, and no node has two of them at once. */
  lemma ValidPlanMeans(p: ContactPlan)
    ensures ValidPlan(p) <==>
            && p.validFrom < p.validTo
            && (forall i :: 0 <= i < |p.contacts| ==>
                  && p.validFrom <= p.contacts[i].startTime && p.contacts[i].endTime <= p.validTo
                  && p.contacts[i].startTime < p.contacts[i].endTime && 0 < p.contacts[i].dataRate)
            && (forall i, j, t :: 0 <= i < j < |p.contacts| && BothRun(p.contacts[i], p.contacts[j], t) ==>
                  p.contacts[i].remoteNode != p.contacts[j].remoteNode)
            && (forall i :: 0 <= i < |p.predicted| ==>
                  0.0 <= p.predicted[i].confidence && p.predicted[i].confidence <= 1.0)
  {
    var cs := p.contacts;
    if forall i :: 0 <= i < |cs| ==> WindowFits(p.validFrom, p.validTo, cs[i]) {
      if forall i, j, t :: 0 <= i < j < |cs| && BothRun(cs[i], cs[j], t) ==> cs[i].remoteNode != cs[j].remoteNode {
        forall i, j | 0 <= i < j < |cs| ensures !Clash(cs[i], cs[j]) {
          ClashHasInstant(cs[i], cs[j]);
        }
      }
      if NoClashes(cs) {
        forall i, j, t | 0 <= i < j < |cs| && BothRun(cs[i], cs[j], t) ensures cs[i].remoteNode != cs[j].remoteNode {
          assert !Clash(cs[i], cs[j]);
        }
      }
    }
  }

  predicate BothRun(c: ContactWindow, d: ContactWindow, t: int) {
    c.startTime <= t < c.endTime && d.startTime <= t < d.endTime
  }

  lemma ClashHasInstant(c: ContactWindow, d: ContactWindow)
    requires c.startTime < c.endTime && d.startTime < d.endTime
    ensures Clash(c, d) ==> exists t :: BothRun(c, d, t)
  {
    if Clash(c, d) {
      assert BothRun(c, d, if c.startTime <= d.startTime then d.startTime else c.startTime);
    }
  }

  /** What an error of the validator says about the plan. */
  predicate Explains(e: PlanError, p: ContactPlan) {
    match e
    case RangeInverted => p.validFrom >= p.validTo
    case OutsideRange(i) =>
      i < |p.contacts| && (p.contacts[i].startTime < p.validFrom || p.contacts[i].endTime > p.validTo)
    case BadTimes(i) => i < |p.contacts| && p.contacts[i].startTime >= p.contacts[i].endTime
    case BadDataRate(i) => i < |p.contacts| && p.contacts[i].dataRate <= 0
    case Overlap(i, j) => i < j < |p.contacts| && Clash(p.contacts[i], p.contacts[j])
    case BadConfidence(i) =>
      i < |p.predicted| && (p.predicted[i].confidence < 0.0 || p.predicted[i].confidence > 1.0)
    case NoPlan => false
    case PredictionFailed => false
  }

  /** The validator: it accepts exactly the valid plans, and an error names a real defect. */
  method Validate(p: ContactPlan) returns (r: Result<(), PlanError>)
    ensures r.Ok? <==> ValidPlan(p)
    ensures r.Err? ==> Explains(r.error, p)
  {
    if p.validFrom >= p.validTo {
      return Err(RangeInverted);
    }
    for i := 0 to |p.contacts|
      invariant forall k :: 0 <= k < i ==> WindowFits(p.validFrom, p.validTo, p.contacts[k])
    {
      var contact := p.contacts[i];
      if contact.startTime < p.validFrom || contact.endTime > p.validTo {
        return Err(OutsideRange(i));
      }
      if contact.startTime >= contact.endTime {
        return Err(BadTimes(i));
      }
      if contact.dataRate <= 0 {
        return Err(BadDataRate(i));
      }
    }
    for i := 0 to |p.contacts|
      invariant forall k, j :: 0 <= k < i && k < j < |p.contacts| ==> !Clash(p.contacts[k], p.contacts[j])
    {
      for j := i + 1 to |p.contacts|
        invariant forall m :: i < m < j ==> !Clash(p.contacts[i], p.contacts[m])
      {
        var c1, c2 := p.contacts[i], p.contacts[j];
        if c1.remoteNode == c2.remoteNode {
          if c1.startTime < c2.endTime && c2.startTime < c1.endTime {
            return Err(Overlap(i, j));
          }
        }
      }
    }
    for i := 0 to |p.predicted|
      invariant forall k :: 0 <= k < i ==> 0.0 <= p.predicted[k].confidence <= 1.0
    {
      if p.predicted[i].confidence < 0.0 || p.predicted[i].confidence > 1.0 {
        return Err(BadConfidence(i));
      }
    }
    r := Ok(());
  }

  // ------------------------------------------------------------------- plan queries

  /** The active windows, in plan order. */
  function ActiveAt(cs: seq<ContactWindow>, t: int): (r: seq<ContactWindow>)
    ensures forall c :: c in r <==> c in cs && c.IsActive(t)
  {
    if cs == [] then []
    else
      var last := cs[|cs| - 1];
      assert cs == cs[..|cs| - 1] + [last];
      ActiveAt(cs[..|cs| - 1], t) + if last.IsActive(t) then [last] else []
  }

  /** The active windows in plan order, each as often as it is planned. */
  lemma {:induction false} ActiveConcat(a: seq<ContactWindow>, b: seq<ContactWindow>, t: int)
    ensures ActiveAt(a + b, t) == ActiveAt(a, t) + ActiveAt(b, t)
  {
    if b == [] {
      assert a + b == a;
    } else {
      hide ActiveAt;
      var n := |b| - 1;
      ActiveConcat(a, b[..n], t);
      ActiveSnoc(a + b[..n], b[n], t);
      ActiveSnoc(b[..n], b[n], t);
      assert b == b[..n] + [b[n]];
      Associates(a, b[..n], [b[n]]);
      Associates(ActiveAt(a, t), ActiveAt(b[..n], t), if b[n].IsActive(t) then [b[n]] else []);
    }
  }

  lemma Associates<T>(a: seq<T>, b: seq<T>, c: seq<T>)
    ensures a + b + c == a + (b + c)
  {
  }

  lemma ActiveSnoc(cs: seq<ContactWindow>, c: ContactWindow, t: int)
    ensures ActiveAt(cs + [c], t) == ActiveAt(cs, t) + if c.IsActive(t) then [c] else []
  {
    assert (cs + [c])[..|cs|] == cs;
  }

  lemma ActiveOne(c: ContactWindow, t: int)
    ensures ActiveAt([c], t) == if c.startTime <= t && t < c.endTime then [c] else []
  {
    assert [c][..0] == [];
  }

  /** The windows to a node that have not yet begun at t. */
  predicate Upcoming(c: ContactWindow, node: NodeID, t: int) {
    c.remoteNode == node && c.startTime >= t
  }

  /** c is the earliest upcoming window, and the first of those in plan order. */
  ghost predicate IsNext(c: ContactWindow, cs: seq<ContactWindow>, node: NodeID, t: int) {
    exists i :: 0 <= i < |cs| && cs[i] == c && Upcoming(c, node, t) &&
      (forall j :: 0 <= j < i && Upcoming(cs[j], node, t) ==> cs[j].startTime > c.startTime) &&
      (forall j :: i < j < |cs| && Upcoming(cs[j], node, t) ==> cs[j].startTime >= c.startTime)
  }

  /** On a valid plan a node never has two windows active at the same instant. */
  lemma OneActiveWindowPerNode(p: ContactPlan, t: int, i: nat, j: nat)
    requires ValidPlan(p) && i < |p.contacts| && j < |p.contacts|
    requires p.contacts[i].IsActive(t) && p.contacts[j].IsActive(t)
    requires p.contacts[i].remoteNode == p.contacts[j].remoteNode
    ensures i == j
  {
    if i < j {
      assert Clash(p.contacts[i], p.contacts[j]);
    } else if j < i {
      assert Clash(p.contacts[j], p.contacts[i]);
    }
  }

  class ContactPlanManager {
    var plan: Option<ContactPlan>
    var orbitalParams: map<NodeID, OrbitalParameters>

    constructor ()
      ensures plan == None && orbitalParams == map[]
    {
      plan, orbitalParams := None, map[];
    }

    method LoadPlan(p: ContactPlan) returns (r: Result<(), PlanError>)
      modifies this`plan
      ensures r.Ok? <==> ValidPlan(p)
      ensures plan == if ValidPlan(p) then Some(p) else old(plan)
    {
      r := Validate(p);
      if r.Ok? {
        plan := Some(p);
      }
    }

    ghost function Contacts(): seq<ContactWindow>
      reads this
    {
      if plan.None? then [] else plan.value.contacts
    }

    method GetActiveContacts(t: int) returns (active: seq<ContactWindow>)
      ensures active == ActiveAt(Contacts(), t)
    {
      if plan.None? {
        return [];
      }
      active := [];
      var contacts := plan.value.contacts;
      for i := 0 to |contacts|
        invariant active == ActiveAt(contacts[..i], t)
      {
        assert contacts[..i + 1][..i] == contacts[..i];
        if contacts[i].IsActive(t) {
          active := active + [contacts[i]];
        }
      }
      assert contacts[..|contacts|] == contacts;
    }

    method GetNextContact(node: NodeID, t: int) returns (next: Option<ContactWindow>)
      ensures next.None? <==> forall i :: 0 <= i < |Contacts()| ==> !Upcoming(Contacts()[i], node, t)
      ensures next.Some? ==> IsNext(next.value, Contacts(), node, t)
      ensures next.Some? ==>
                && next.value in Contacts() && next.value.remoteNode == node && t <= next.value.startTime
                && forall c :: c in Contacts() && c.remoteNode == node && t <= c.startTime ==>
                     next.value.startTime <= c.startTime
      ensures next.None? ==> forall c :: c in Contacts() ==> c.remoteNode != node || c.startTime < t
    {
      next := None;
      if plan.None? {
        return;
      }
      var contacts := plan.value.contacts;
      ghost var best := 0;
      for i := 0 to |contacts|
        invariant next.None? ==> forall j :: 0 <= j < i ==> !Upcoming(contacts[j], node, t)
        invariant next.Some? ==> best < i && contacts[best] == next.value && Upcoming(next.value, node, t)
        invariant next.Some? ==>
                    forall j :: 0 <= j < best && Upcoming(contacts[j], node, t)
                                ==> contacts[j].startTime > next.value.startTime
        invariant next.Some? ==>
                    forall j :: best < j < i && Upcoming(contacts[j], node, t)
                                ==> contacts[j].startTime >= next.value.startTime
      {
        var contact := contacts[i];
        if contact.remoteNode == node && contact.startTime >= t {
          if next.None? || contact.startTime < next.value.startTime {
            next := Some(contact);
            best := i;
          }
        }
      }
      assert next.Some? ==> Upcoming(Contacts()[best], node, t);
    }
  }
}
