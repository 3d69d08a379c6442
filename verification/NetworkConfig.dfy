/** The canonical network configuration and its fail-slow validator
    (radiant-dtn-abstraction/src/model, src/validation/mod.rs). */
module NetworkConfig {
  import opened Prelude

  datatype Link =
    | LtpUdp(localEngine: nat, remoteEngine: nat, remoteHost: string, remotePort: nat, localPort: nat, mtu: Option<nat>)
    | TcpCl(remoteHost: string, remotePort: nat, boundPort: Option<nat>)
    | Kiss(localEngine: nat, remoteEngine: nat, tncDevice: string, frameSize: Option<nat>)
    | Udp(remoteHost: string, remotePort: nat, boundPort: Option<nat>)
  {
    predicate UsesLtp() { LtpUdp? || Kiss? }
  }

  datatype Neighbor = Neighbor(node: nat, links: seq<Link>)
  datatype Contact = Contact(source: nat, dest: nat, start: int, end: int, rate: nat)
  datatype Range = Range(source: nat, dest: nat)
  datatype Strategy = Cgr | Static | Default
  datatype Route = Route(dest: nat, nextHop: nat)

  datatype EndpointId = Ipn(node: nat, service: nat) | Dtn(authority: string, path: string)

  datatype Config = Config(
    localNode: nat, services: seq<nat>, callsign: Option<EndpointId>, neighbors: seq<Neighbor>, contacts: seq<Contact>, ranges: seq<Range>,
    strategy: Strategy, routes: seq<Route>)
  {
    function DefinedNodes(): set<nat> {
      {localNode} + set i | 0 <= i < |neighbors| :: neighbors[i].node
    }
  }

  /** A rule broken at one place of the configuration. */
  datatype Violation =
    | DuplicatesLocal(i: nat)
    | DuplicateNeighbor(i: nat)
    | ContactSource(i: nat)
    | ContactDest(i: nat)
    | RangeSource(i: nat)
    | RangeDest(i: nat)
    | ContactOrder(i: nat)
    | RouteDest(i: nat)
    | RouteHop(i: nat)

  predicate RepeatsEarlier(ns: seq<Neighbor>, i: nat) {
    i < |ns| && exists j :: 0 <= j < i && ns[j].node == ns[i].node
  }

  predicate Violates(c: Config, v: Violation) {
    var nodes := c.DefinedNodes();
    match v
    case DuplicatesLocal(i) => i < |c.neighbors| && c.neighbors[i].node == c.localNode
    case DuplicateNeighbor(i) => RepeatsEarlier(c.neighbors, i)
    case ContactSource(i) => i < |c.contacts| && c.contacts[i].source !in nodes
    case ContactDest(i) => i < |c.contacts| && c.contacts[i].dest !in nodes
    case RangeSource(i) => i < |c.ranges| && c.ranges[i].source !in nodes
    case RangeDest(i) => i < |c.ranges| && c.ranges[i].dest !in nodes
    case ContactOrder(i) => i < |c.contacts| && c.contacts[i].start >= c.contacts[i].end
    case RouteDest(i) => c.strategy == Static && i < |c.routes| && c.routes[i].dest !in nodes
    case RouteHop(i) => c.strategy == Static && i < |c.routes| && c.routes[i].nextHop !in nodes
  }

  /** The order of the report: by check, then by place, a source before its destination. */
  function Check(v: Violation): nat {
    match v
    case DuplicatesLocal(_) => 0
    case DuplicateNeighbor(_) => 1
    case ContactSource(_) => 2
    case ContactDest(_) => 2
    case RangeSource(_) => 3
    case RangeDest(_) => 3
    case ContactOrder(_) => 4
    case RouteDest(_) => 5
    case RouteHop(_) => 5
  }

  predicate IsSecondEnd(v: Violation) { v.ContactDest? || v.RangeDest? || v.RouteHop? }

  predicate Before(v: Violation, w: Violation) {
    Check(v) < Check(w) ||
    (Check(v) == Check(w) && (v.i < w.i || (v.i == w.i && !IsSecondEnd(v) && IsSecondEnd(w))))
  }

  /** Strictly in that order, so no violation is reported twice. */
  ghost predicate Ordered(errors: seq<Violation>) {
    forall a, b :: 0 <= a < b < |errors| ==> Before(errors[a], errors[b])
  }

  lemma OrderedConcat(xs: seq<Violation>, ys: seq<Violation>)
    requires Ordered(xs) && Ordered(ys)
    requires forall x, y :: x in xs && y in ys ==> Check(x) < Check(y)
    ensures Ordered(xs + ys)
  {
    hide Check;
  }

  /** Fail-slow validation reports exactly the violations there are, each once and in order;
      the configuration is accepted when the list is empty. */
  method Validate(c: Config) returns (errors: seq<Violation>)
    ensures forall v :: v in errors <==> Violates(c, v)
    ensures Ordered(errors)
  {
    hide Violates, Ordered;
    var nodes := CollectNodes(c);
    var e1 := CheckDuplicateLocal(c);
    var e2 := CheckDuplicateNeighbors(c);
    var e3 := CheckContactReferences(c, nodes);
    var e4 := CheckRangeReferences(c, nodes);
    var e5 := CheckContactOrder(c);
    var e6 := CheckRouteReferences(c, nodes);
    OrderedConcat(e1, e2);
    OrderedConcat(e1 + e2, e3);
    OrderedConcat(e1 + e2 + e3, e4);
    OrderedConcat(e1 + e2 + e3 + e4, e5);
    OrderedConcat(e1 + e2 + e3 + e4 + e5, e6);
    errors := e1 + e2 + e3 + e4 + e5 + e6;
  }

  method CollectNodes(c: Config) returns (nodes: set<nat>)
    ensures nodes == c.DefinedNodes()
  {
    nodes := {c.localNode};
    for i := 0 to |c.neighbors|
      invariant nodes == {c.localNode} + set j | 0 <= j < i :: c.neighbors[j].node
    {
      nodes := nodes + {c.neighbors[i].node};
    }
  }

  method CheckDuplicateLocal(c: Config) returns (errors: seq<Violation>)
    ensures forall v :: v in errors <==> v.DuplicatesLocal? && Violates(c, v)
    ensures Ordered(errors)
  {
    errors := [];
    for i := 0 to |c.neighbors|
      invariant forall v :: v in errors <==> v.DuplicatesLocal? && v.i < i && Violates(c, v)
      invariant Ordered(errors)
    {
      if c.neighbors[i].node == c.localNode {
        errors := errors + [DuplicatesLocal(i)];
      }
    }
  }

  method CheckDuplicateNeighbors(c: Config) returns (errors: seq<Violation>)
    ensures forall v :: v in errors <==> v.DuplicateNeighbor? && Violates(c, v)
    ensures Ordered(errors)
  {
    errors := [];
    var seen: set<nat> := {};
    for i := 0 to |c.neighbors|
      invariant seen == set j | 0 <= j < i :: c.neighbors[j].node
      invariant forall v :: v in errors <==> v.DuplicateNeighbor? && v.i < i && Violates(c, v)
      invariant Ordered(errors)
    {
      if c.neighbors[i].node in seen {
        errors := errors + [DuplicateNeighbor(i)];
      }
      seen := seen + {c.neighbors[i].node};
    }
  }

  method CheckContactReferences(c: Config, nodes: set<nat>) returns (errors: seq<Violation>)
    requires nodes == c.DefinedNodes()
    ensures forall v :: v in errors <==> (v.ContactSource? || v.ContactDest?) && Violates(c, v)
    ensures Ordered(errors)
  {
    errors := [];
    for i := 0 to |c.contacts|
      invariant forall v :: v in errors <==> (v.ContactSource? || v.ContactDest?) && v.i < i && Violates(c, v)
      invariant Ordered(errors)
    {
      if c.contacts[i].source !in nodes {
        errors := errors + [ContactSource(i)];
      }
      if c.contacts[i].dest !in nodes {
        errors := errors + [ContactDest(i)];
      }
    }
  }

  method CheckRangeReferences(c: Config, nodes: set<nat>) returns (errors: seq<Violation>)
    requires nodes == c.DefinedNodes()
    ensures forall v :: v in errors <==> (v.RangeSource? || v.RangeDest?) && Violates(c, v)
    ensures Ordered(errors)
  {
    errors := [];
    for i := 0 to |c.ranges|
      invariant forall v :: v in errors <==> (v.RangeSource? || v.RangeDest?) && v.i < i && Violates(c, v)
      invariant Ordered(errors)
    {
      if c.ranges[i].source !in nodes {
        errors := errors + [RangeSource(i)];
      }
      if c.ranges[i].dest !in nodes {
        errors := errors + [RangeDest(i)];
      }
    }
  }

  method CheckContactOrder(c: Config) returns (errors: seq<Violation>)
    ensures forall v :: v in errors <==> v.ContactOrder? && Violates(c, v)
    ensures Ordered(errors)
  {
    errors := [];
    for i := 0 to |c.contacts|
      invariant forall v :: v in errors <==> v.ContactOrder? && v.i < i && Violates(c, v)
      invariant Ordered(errors)
    {
      if c.contacts[i].start >= c.contacts[i].end {
        errors := errors + [ContactOrder(i)];
      }
    }
  }

  method CheckRouteReferences(c: Config, nodes: set<nat>) returns (errors: seq<Violation>)
    requires nodes == c.DefinedNodes()
    ensures forall v :: v in errors <==> (v.RouteDest? || v.RouteHop?) && Violates(c, v)
    ensures Ordered(errors)
  {
    errors := [];
    if c.strategy != Static {
      return;
    }
    for i := 0 to |c.routes|
      invariant forall v :: v in errors <==> (v.RouteDest? || v.RouteHop?) && v.i < i && Violates(c, v)
      invariant Ordered(errors)
    {
      if c.routes[i].dest !in nodes {
        errors := errors + [RouteDest(i)];
      }
      if c.routes[i].nextHop !in nodes {
        errors := errors + [RouteHop(i)];
      }
    }
  }

  ghost predicate IsAccepted(c: Config) {
    forall v :: !Violates(c, v)
  }

  /** A node number that the configuration defines. */
  predicate Defines(c: Config, node: nat) {
    node == c.localNode || exists i :: 0 <= i < |c.neighbors| && c.neighbors[i].node == node
  }

  lemma DefinedExactly(c: Config, node: nat)
    ensures node in c.DefinedNodes() <==> Defines(c, node)
  {
  }

  /** What each violation says, place by place. */
  lemma ViolationsMean(c: Config, i: nat)
    ensures Violates(c, DuplicatesLocal(i)) <==> i < |c.neighbors| && c.neighbors[i].node == c.localNode
    ensures Violates(c, DuplicateNeighbor(i)) <==>
              i < |c.neighbors| && exists j :: 0 <= j < i && c.neighbors[j].node == c.neighbors[i].node
    ensures Violates(c, ContactSource(i)) <==> i < |c.contacts| && !Defines(c, c.contacts[i].source)
    ensures Violates(c, ContactDest(i)) <==> i < |c.contacts| && !Defines(c, c.contacts[i].dest)
    ensures Violates(c, RangeSource(i)) <==> i < |c.ranges| && !Defines(c, c.ranges[i].source)
    ensures Violates(c, RangeDest(i)) <==> i < |c.ranges| && !Defines(c, c.ranges[i].dest)
    ensures Violates(c, ContactOrder(i)) <==> i < |c.contacts| && !(c.contacts[i].start < c.contacts[i].end)
    ensures Violates(c, RouteDest(i)) <==>
              c.strategy == Static && i < |c.routes| && !Defines(c, c.routes[i].dest)
    ensures Violates(c, RouteHop(i)) <==>
              c.strategy == Static && i < |c.routes| && !Defines(c, c.routes[i].nextHop)
  {
    forall node ensures node in c.DefinedNodes() <==> Defines(c, node) {
      DefinedExactly(c, node);
    }
  }

  /** The accepted configurations: node numbers are distinct, contacts and ranges join defined
      nodes, contacts begin before they end, and static routes lead through defined nodes. */
  lemma AcceptedExactly(c: Config)
    ensures IsAccepted(c) <==>
            && (forall i :: 0 <= i < |c.neighbors| ==> c.neighbors[i].node != c.localNode)
            && (forall i, j :: 0 <= i < j < |c.neighbors| ==> c.neighbors[i].node != c.neighbors[j].node)
            && (forall i :: 0 <= i < |c.contacts| ==>
                  Defines(c, c.contacts[i].source) && Defines(c, c.contacts[i].dest)
                  && c.contacts[i].start < c.contacts[i].end)
            && (forall i :: 0 <= i < |c.ranges| ==> Defines(c, c.ranges[i].source) && Defines(c, c.ranges[i].dest))
            && (c.strategy == Static ==> forall i :: 0 <= i < |c.routes| ==>
                  Defines(c, c.routes[i].dest) && Defines(c, c.routes[i].nextHop))
  {
    hide Violates, Defines;
    if IsAccepted(c) {
      forall i: nat ensures NothingWrongAt(c, i) {
        ViolationsMean(c, i);
        assert !Violates(c, DuplicatesLocal(i)) && !Violates(c, DuplicateNeighbor(i));
        assert !Violates(c, ContactSource(i)) && !Violates(c, ContactDest(i)) && !Violates(c, ContactOrder(i));
        assert !Violates(c, RangeSource(i)) && !Violates(c, RangeDest(i));
        assert !Violates(c, RouteDest(i)) && !Violates(c, RouteHop(i));
      }
      forall i, j | 0 <= i < j < |c.neighbors| ensures c.neighbors[i].node != c.neighbors[j].node {
        assert NothingWrongAt(c, j);
      }
      forall i | 0 <= i < |c.neighbors| ensures c.neighbors[i].node != c.localNode {
        assert NothingWrongAt(c, i);
      }
      forall i | 0 <= i < |c.contacts|
        ensures Defines(c, c.contacts[i].source) && Defines(c, c.contacts[i].dest)
        ensures c.contacts[i].start < c.contacts[i].end
      {
        assert NothingWrongAt(c, i);
      }
      forall i | 0 <= i < |c.ranges| ensures Defines(c, c.ranges[i].source) && Defines(c, c.ranges[i].dest) {
        assert NothingWrongAt(c, i);
      }
      forall i | c.strategy == Static && 0 <= i < |c.routes|
        ensures Defines(c, c.routes[i].dest) && Defines(c, c.routes[i].nextHop)
      {
        assert NothingWrongAt(c, i);
      }
    } else {
      var v :| Violates(c, v);
      ViolationsMean(c, v.i);
    }
  }

  ghost predicate NothingWrongAt(c: Config, i: nat) {
    && (i < |c.neighbors| ==> c.neighbors[i].node != c.localNode)
    && (i < |c.neighbors| ==> forall j :: 0 <= j < i ==> c.neighbors[j].node != c.neighbors[i].node)
    && (i < |c.contacts| ==> Defines(c, c.contacts[i].source) && Defines(c, c.contacts[i].dest)
                             && c.contacts[i].start < c.contacts[i].end)
    && (i < |c.ranges| ==> Defines(c, c.ranges[i].source) && Defines(c, c.ranges[i].dest))
    && (c.strategy == Static && i < |c.routes| ==> Defines(c, c.routes[i].dest) && Defines(c, c.routes[i].nextHop))
  }

  /** In an accepted configuration every neighbour has its own node number. */
  lemma NeighborsDistinct(c: Config, i: nat, j: nat)
    requires IsAccepted(c) && i < j < |c.neighbors|
    ensures c.neighbors[i].node != c.neighbors[j].node
  {
    assert !Violates(c, DuplicateNeighbor(j));
  }
}
