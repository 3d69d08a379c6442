/** The ION configuration generators (radiant-dtn-abstraction/src/adapter/ion/config_gen.rs),
    command by command, and the references between the files they write. */
module IonConfig {
  import opened Prelude
  import opened NetworkConfig

  datatype Protocol = Ltp | Tcp | UdpProtocol
  datatype DuctName = Engine(id: nat) | Socket(host: string, port: nat)

  /** `ltp/<engine>`, `tcp/<host>:<port>` or `udp/<host>:<port>`. */
  datatype Duct = Duct(protocol: Protocol, name: DuctName)

  /** `udplso <host>:<port>` or `kisslo <device>`. */
  datatype LinkService = UdpLso(host: string, port: nat) | KissLo(device: string)

  /** What every span shares. */
  datatype SpanLimits = SpanLimits(maxExport: nat, maxImport: nat, blockSize: nat, aggregationTime: nat)

  datatype Command =
    | InitializeBp                                           // .bprc
    | AddScheme                                              // .bprc, the ipn scheme
    | AddEndpoint(eid: EndpointId)                           // .bprc
    | StartBp                                                // .bprc
    | InitializeLtp(maxSessions: nat)                        // .ltprc
    | ListenLtp(port: nat)                                   // .ltprc
    | AddProtocol(protocol: Protocol)                        // .bprc
    | AddInduct(duct: Duct)                                  // .bprc
    | AddOutduct(duct: Duct)                                 // .bprc
    | AddSpan(engine: nat, limits: SpanLimits, segmentSize: nat, lso: LinkService)  // .ltprc
    | AddPlan(node: nat, via: Duct)                          // .ipnrc
    | AddContact(start: int, end: int, source: nat, dest: nat, rate: nat)  // .ionrc

  const DEFAULT_PORT := 4556
  const DEFAULT_SEGMENT_SIZE := 1400
  const SPAN_LIMITS := SpanLimits(32, 32, 100000, 1)
  const LTP_MAX_SESSIONS := 32
  const DEFAULT_LTP_PORT := 1113
  const DAY := 86400
  const LOOPBACK_RATE := 100000

  // --------------------------------------------------------------- one link's lines

  function BoundPort(p: Option<nat>): nat { if p.None? then DEFAULT_PORT else p.value }

  function ProtocolOf(l: Link): Protocol {
    match l
    case LtpUdp(_, _, _, _, _, _) => Ltp
    case Kiss(_, _, _, _) => Ltp
    case TcpCl(_, _, _) => Tcp
    case Udp(_, _, _) => UdpProtocol
  }

  /** link_to_duct_expression. */
  function DuctOf(l: Link): Duct {
    match l
    case LtpUdp(_, remote, _, _, _, _) => Duct(Ltp, Engine(remote))
    case Kiss(_, remote, _, _) => Duct(Ltp, Engine(remote))
    case TcpCl(host, port, _) => Duct(Tcp, Socket(host, port))
    case Udp(host, port, _) => Duct(UdpProtocol, Socket(host, port))
  }

  /** write_bprc_link_entries: an induct and an outduct. */
  function LinkDucts(l: Link): seq<Command> {
    match l
    case LtpUdp(here, remote, _, _, _, _) =>
      [AddInduct(Duct(Ltp, Engine(here))), AddOutduct(Duct(Ltp, Engine(remote)))]
    case Kiss(here, remote, _, _) =>
      [AddInduct(Duct(Ltp, Engine(here))), AddOutduct(Duct(Ltp, Engine(remote)))]
    case TcpCl(host, port, bound) =>
      [AddInduct(Duct(Tcp, Socket(host, BoundPort(bound)))), AddOutduct(Duct(Tcp, Socket(host, port)))]
    case Udp(host, port, bound) =>
      [AddInduct(Duct(UdpProtocol, Socket(host, BoundPort(bound)))),
       AddOutduct(Duct(UdpProtocol, Socket(host, port)))]
  }

  /** write_ltprc_span: LTP links only. */
  function LinkSpan(l: Link): seq<Command> {
    match l
    case LtpUdp(_, remote, host, port, _, mtu) =>
      [AddSpan(remote, SPAN_LIMITS, if mtu.None? then DEFAULT_SEGMENT_SIZE else mtu.value, UdpLso(host, port))]
    case Kiss(_, remote, device, size) =>
      [AddSpan(remote, SPAN_LIMITS, if size.None? then DEFAULT_SEGMENT_SIZE else size.value, KissLo(device))]
    case _ => []
  }

  // ------------------------------------------------------------------ the four files

  function Links(ns: seq<Neighbor>): seq<Link> {
    if ns == [] then [] else Links(ns[..|ns| - 1]) + ns[|ns| - 1].links
  }

  function Ducts(ls: seq<Link>): seq<Command> {
    if ls == [] then [] else Ducts(ls[..|ls| - 1]) + LinkDucts(ls[|ls| - 1])
  }

  function Spans(ls: seq<Link>): seq<Command> {
    if ls == [] then [] else Spans(ls[..|ls| - 1]) + LinkSpan(ls[|ls| - 1])
  }

  predicate Uses(ls: seq<Link>, p: Protocol) {
    exists i :: 0 <= i < |ls| && ProtocolOf(ls[i]) == p
  }

  function Protocols(ls: seq<Link>): seq<Command> {
    (if Uses(ls, Ltp) then [AddProtocol(Ltp)] else [])
    + (if Uses(ls, Tcp) then [AddProtocol(Tcp)] else [])
    + (if Uses(ls, UdpProtocol) then [AddProtocol(UdpProtocol)] else [])
  }

  function NeighborPlan(n: Neighbor): seq<Command> {
    if n.links == [] then [] else [AddPlan(n.node, DuctOf(n.links[0]))]
  }

  function NeighborPlans(ns: seq<Neighbor>): seq<Command> {
    if ns == [] then [] else NeighborPlans(ns[..|ns| - 1]) + NeighborPlan(ns[|ns| - 1])
  }

  function RoutePlans(rs: seq<Route>): (r: seq<Command>)
    ensures |r| == |rs|
    ensures forall i :: 0 <= i < |rs| ==> r[i] == AddPlan(rs[i].dest, Duct(Ltp, Engine(rs[i].nextHop)))
  {
    seq(|rs|, i requires 0 <= i < |rs| => AddPlan(rs[i].dest, Duct(Ltp, Engine(rs[i].nextHop))))
  }

  function ContactCommand(c: Contact): Command { AddContact(c.start, c.end, c.source, c.dest, c.rate) }

  function ContactCommands(cs: seq<Contact>): (r: seq<Command>)
    ensures |r| == |cs| && forall i :: 0 <= i < |cs| ==> r[i] == ContactCommand(cs[i])
  {
    seq(|cs|, i requires 0 <= i < |cs| => ContactCommand(cs[i]))
  }

  function ServiceEndpoints(node: nat, services: seq<nat>): (r: seq<Command>)
    ensures |r| == |services|
    ensures forall i :: 0 <= i < |services| ==> r[i] == AddEndpoint(Ipn(node, services[i]))
  {
    seq(|services|, i requires 0 <= i < |services| => AddEndpoint(Ipn(node, services[i])))
  }

  /** The admin endpoint, those of the services, and the callsign's. */
  function Endpoints(c: Config): seq<Command> {
    [AddEndpoint(Ipn(c.localNode, 0))] + ServiceEndpoints(c.localNode, c.services)
    + if c.callsign.Some? then [AddEndpoint(c.callsign.value)] else []
  }

  function Bprc(c: Config): seq<Command> {
    [InitializeBp, AddScheme] + Endpoints(c) + Protocols(Links(c.neighbors)) + Ducts(Links(c.neighbors)) + [StartBp]
  }

  /** The local port of the first LTP/UDP link. */
  function LtpPort(ls: seq<Link>): nat {
    if ls == [] then DEFAULT_LTP_PORT else if ls[0].LtpUdp? then ls[0].localPort else LtpPort(ls[1..])
  }

  /** The loopback span comes first; it points where the node listens. */
  function Ltprc(c: Config): seq<Command> {
    var port := LtpPort(Links(c.neighbors));
    [InitializeLtp(LTP_MAX_SESSIONS),
     AddSpan(c.localNode, SPAN_LIMITS, DEFAULT_SEGMENT_SIZE, UdpLso("127.0.0.1", port))]
    + Spans(Links(c.neighbors)) + [ListenLtp(port)]
  }

  function Ipnrc(c: Config): seq<Command> {
    (if c.strategy == Static then RoutePlans(c.routes) else []) + NeighborPlans(c.neighbors)
  }

  /** The self-contact comes first. */
  function Ionrc(c: Config): seq<Command> {
    [AddContact(0, DAY, c.localNode, c.localNode, LOOPBACK_RATE)] + ContactCommands(c.contacts)
  }

  // ---------------------------------------------------------------------- the loops

  lemma LinksSnoc(ns: seq<Neighbor>, i: nat)
    requires i < |ns|
    ensures Links(ns[..i + 1]) == Links(ns[..i]) + ns[i].links
  {
    assert ns[..i + 1][..i] == ns[..i];
  }

  lemma DuctsSnoc(before: seq<Link>, links: seq<Link>, j: nat)
    requires j < |links|
    ensures Ducts(before + links[..j + 1]) == Ducts(before + links[..j]) + LinkDucts(links[j])
  {
    var ls := before + links[..j + 1];
    assert ls[..|ls| - 1] == before + links[..j] && ls[|ls| - 1] == links[j];
  }

  lemma SpansSnoc(before: seq<Link>, links: seq<Link>, j: nat)
    requires j < |links|
    ensures Spans(before + links[..j + 1]) == Spans(before + links[..j]) + LinkSpan(links[j])
  {
    var ls := before + links[..j + 1];
    assert ls[..|ls| - 1] == before + links[..j] && ls[|ls| - 1] == links[j];
  }

  method GenerateBprc(c: Config) returns (out: seq<Command>)
    ensures out == Bprc(c)
  {
    hide Ducts, Links, LinkDucts, Protocols, Endpoints;
    out := [InitializeBp, AddScheme];
    var endpoints := GenerateEndpoints(c);
    var declared := CollectProtocols(c.neighbors);
    out := out + endpoints + declared;
    ghost var head := out;
    NoLinks(c.neighbors);
    assert head + [] == head;
    for i := 0 to |c.neighbors|
      invariant out == head + Ducts(Links(c.neighbors[..i]))
    {
      ghost var before := Links(c.neighbors[..i]);
      var links := c.neighbors[i].links;
      LinksSnoc(c.neighbors, i);
      assert before + links[..0] == before;
      for j := 0 to |links|
        invariant out == head + Ducts(before + links[..j])
      {
        DuctsSnoc(before, links, j);
        out := out + LinkDucts(links[j]);
      }
      assert links[..|links|] == links;
    }
    assert c.neighbors[..|c.neighbors|] == c.neighbors;
    out := out + [StartBp];
  }

  method GenerateEndpoints(c: Config) returns (out: seq<Command>)
    ensures out == Endpoints(c)
  {
    out := [AddEndpoint(Ipn(c.localNode, 0))];
    ghost var admin, all := out, ServiceEndpoints(c.localNode, c.services);
    for i := 0 to |c.services|
      invariant out == admin + all[..i]
    {
      out := out + [AddEndpoint(Ipn(c.localNode, c.services[i]))];
    }
    if c.callsign.Some? {
      out := out + [AddEndpoint(c.callsign.value)];
    }
  }

  /** The search returns from inside both loops at the first LTP/UDP link. */
  method FindLocalLtpPort(ns: seq<Neighbor>) returns (port: nat)
    ensures port == LtpPort(Links(ns))
  {
    hide Links, LtpPort;
    NoLinks(ns);
    for i := 0 to |ns|
      invariant NoLtpUdp(Links(ns[..i]))
    {
      ghost var before := Links(ns[..i]);
      var links := ns[i].links;
      LinksSnoc(ns, i);
      for j := 0 to |links|
        invariant NoLtpUdp(before + links[..j])
      {
        if links[j].LtpUdp? {
          LinksExtend(ns, i + 1);
          var rest := Links(ns)[|before| + j + 1..];
          assert before + links == Links(ns)[..|before| + |links|];
          assert Links(ns)[|before| + j] == links[j];
          assert Links(ns) == before + links[..j] + [links[j]] + rest;
          FirstLtpPort(before + links[..j], links[j], rest);
          return links[j].localPort;
        }
        assert before + links[..j + 1] == before + links[..j] + [links[j]];
      }
      assert links[..|links|] == links;
    }
    assert ns[..|ns|] == ns;
    FallbackPort(Links(ns));
    port := DEFAULT_LTP_PORT;
  }

  ghost predicate NoLtpUdp(ls: seq<Link>) {
    forall l :: l in ls ==> !l.LtpUdp?
  }

  lemma {:induction false} LinksExtend(ns: seq<Neighbor>, i: nat)
    requires i <= |ns|
    ensures Links(ns[..i]) <= Links(ns)
    decreases |ns| - i
  {
    if i < |ns| {
      LinksSnoc(ns, i);
      LinksExtend(ns, i + 1);
    } else {
      assert ns[..i] == ns;
    }
  }

  lemma {:induction false} FirstLtpPort(before: seq<Link>, l: Link, rest: seq<Link>)
    requires NoLtpUdp(before) && l.LtpUdp?
    ensures LtpPort(before + [l] + rest) == l.localPort
  {
    if before != [] {
      FirstLtpPort(before[1..], l, rest);
      assert (before + [l] + rest)[1..] == before[1..] + [l] + rest;
    }
  }

  lemma {:induction false} FallbackPort(ls: seq<Link>)
    requires NoLtpUdp(ls)
    ensures LtpPort(ls) == DEFAULT_LTP_PORT
  {
    if ls != [] {
      FallbackPort(ls[1..]);
    }
  }

  lemma NoLinks(ns: seq<Neighbor>)
    ensures Links(ns[..0]) == [] && Ducts([]) == [] && Spans([]) == []
  {
  }

  method CollectProtocols(ns: seq<Neighbor>) returns (out: seq<Command>)
    ensures out == Protocols(Links(ns))
  {
    hide Links, Uses;
    var hasLtp, hasTcp, hasUdp := false, false, false;
    NoLinks(ns);
    NoneUsed();
    for i := 0 to |ns|
      invariant hasLtp == Uses(Links(ns[..i]), Ltp)
      invariant hasTcp == Uses(Links(ns[..i]), Tcp)
      invariant hasUdp == Uses(Links(ns[..i]), UdpProtocol)
    {
      ghost var before := Links(ns[..i]);
      var links := ns[i].links;
      LinksSnoc(ns, i);
      assert before + links[..0] == before;
      for j := 0 to |links|
        invariant hasLtp == Uses(before + links[..j], Ltp)
        invariant hasTcp == Uses(before + links[..j], Tcp)
        invariant hasUdp == Uses(before + links[..j], UdpProtocol)
      {
        assert before + links[..j + 1] == before + links[..j] + [links[j]];
        UsesSnoc(before + links[..j], links[j]);
        match links[j]
        case LtpUdp(_, _, _, _, _, _) => hasLtp := true;
        case Kiss(_, _, _, _) => hasLtp := true;
        case TcpCl(_, _, _) => hasTcp := true;
        case Udp(_, _, _) => hasUdp := true;
      }
      assert links[..|links|] == links;
    }
    assert ns[..|ns|] == ns;
    out := [];
    if hasLtp {
      out := out + [AddProtocol(Ltp)];
    }
    if hasTcp {
      out := out + [AddProtocol(Tcp)];
    }
    if hasUdp {
      out := out + [AddProtocol(UdpProtocol)];
    }
  }

  lemma NoneUsed()
    ensures forall p :: !Uses([], p)
  {
  }

  lemma UsesSnoc(ls: seq<Link>, l: Link)
    ensures forall p :: Uses(ls + [l], p) <==> Uses(ls, p) || ProtocolOf(l) == p
  {
    forall p | Uses(ls, p) || ProtocolOf(l) == p ensures Uses(ls + [l], p) {
      if ProtocolOf(l) == p {
        assert ProtocolOf((ls + [l])[|ls|]) == p;
      } else {
        var i :| 0 <= i < |ls| && ProtocolOf(ls[i]) == p;
        assert ProtocolOf((ls + [l])[i]) == p;
      }
    }
  }

  method GenerateLtprc(c: Config) returns (out: seq<Command>)
    ensures out == Ltprc(c)
  {
    hide Spans, Links, LinkSpan, LtpPort;
    var localPort := FindLocalLtpPort(c.neighbors);
    var loopback := AddSpan(c.localNode, SPAN_LIMITS, DEFAULT_SEGMENT_SIZE, UdpLso("127.0.0.1", localPort));
    out := [InitializeLtp(LTP_MAX_SESSIONS), loopback];
    ghost var head := out;
    NoLinks(c.neighbors);
    for i := 0 to |c.neighbors|
      invariant out == head + Spans(Links(c.neighbors[..i]))
    {
      ghost var before := Links(c.neighbors[..i]);
      var links := c.neighbors[i].links;
      LinksSnoc(c.neighbors, i);
      assert before + links[..0] == before;
      for j := 0 to |links|
        invariant out == head + Spans(before + links[..j])
      {
        SpansSnoc(before, links, j);
        out := out + LinkSpan(links[j]);
      }
      assert links[..|links|] == links;
    }
    assert c.neighbors[..|c.neighbors|] == c.neighbors;
    localPort := FindLocalLtpPort(c.neighbors);
    out := out + [ListenLtp(localPort)];
  }

  method GenerateIpnrc(c: Config) returns (out: seq<Command>)
    ensures out == Ipnrc(c)
  {
    hide DuctOf, NeighborPlans;
    NoPlans(c.neighbors);
    out := [];
    if c.strategy == Static {
      for i := 0 to |c.routes|
        invariant out == RoutePlans(c.routes)[..i]
      {
        out := out + [AddPlan(c.routes[i].dest, Duct(Ltp, Engine(c.routes[i].nextHop)))];
      }
    }
    ghost var routed := out;
    for i := 0 to |c.neighbors|
      invariant out == routed + NeighborPlans(c.neighbors[..i])
    {
      PlansSnoc(c.neighbors, i);
      if |c.neighbors[i].links| > 0 {
        out := out + [AddPlan(c.neighbors[i].node, DuctOf(c.neighbors[i].links[0]))];
      }
    }
    assert c.neighbors[..|c.neighbors|] == c.neighbors;
  }

  lemma NoPlans(ns: seq<Neighbor>)
    ensures NeighborPlans(ns[..0]) == []
  {
  }

  lemma PlansSnoc(ns: seq<Neighbor>, i: nat)
    requires i < |ns|
    ensures NeighborPlans(ns[..i + 1]) == NeighborPlans(ns[..i]) + NeighborPlan(ns[i])
  {
    assert ns[..i + 1][..i] == ns[..i];
  }

  /** The contact section of the .ionrc file. */
  method WriteContactCommands(c: Config) returns (out: seq<Command>)
    ensures out == Ionrc(c)
  {
    var loopback := AddContact(0, DAY, c.localNode, c.localNode, LOOPBACK_RATE);
    out := [loopback];
    for i := 0 to |c.contacts|
      invariant out == [loopback] + ContactCommands(c.contacts)[..i]
    {
      out := out + [ContactCommand(c.contacts[i])];
    }
  }

  // -------------------------------------------------------------- reference closure

  /** A command of the duct section comes from one of the links, and each link's are there. */
  lemma {:induction false} DuctSource(ls: seq<Link>, cmd: Command) returns (l: Link)
    requires cmd in Ducts(ls)
    ensures l in ls && cmd in LinkDucts(l)
  {
    var n := |ls| - 1;
    if cmd in LinkDucts(ls[n]) {
      l := ls[n];
    } else {
      l := DuctSource(ls[..n], cmd);
    }
  }

  lemma {:induction false} LinkHasDucts(ls: seq<Link>, l: Link, cmd: Command)
    requires l in ls && cmd in LinkDucts(l)
    ensures cmd in Ducts(ls)
  {
    var n := |ls| - 1;
    if l != ls[n] {
      LinkHasDucts(ls[..n], l, cmd);
    }
  }

  lemma {:induction false} LinkHasSpan(ls: seq<Link>, l: Link, cmd: Command)
    requires l in ls && cmd in LinkSpan(l)
    ensures cmd in Spans(ls)
  {
    var n := |ls| - 1;
    if l != ls[n] {
      LinkHasSpan(ls[..n], l, cmd);
    }
  }

  lemma ProtocolListed(ls: seq<Link>, l: Link)
    requires l in ls
    ensures AddProtocol(ProtocolOf(l)) in Protocols(ls)
  {
    var i :| 0 <= i < |ls| && ls[i] == l;
    assert Uses(ls, ProtocolOf(l));
  }

  lemma OnlyProtocols(ls: seq<Link>, j: nat)
    requires j < |Protocols(ls)|
    ensures Protocols(ls)[j].AddProtocol?
  {
    hide Uses;
  }

  lemma DuctOfItsProtocol(l: Link, cmd: Command)
    requires cmd in LinkDucts(l)
    ensures (cmd.AddInduct? || cmd.AddOutduct?) && cmd.duct.protocol == ProtocolOf(l)
  {
    assert forall i :: 0 <= i < |LinkDucts(l)| ==> LinkDucts(l)[i].duct.protocol == ProtocolOf(l);
  }

  lemma HeadHoldsNoDucts(c: Config, k: nat)
    requires k < |Endpoints(c)|
    ensures Endpoints(c)[k].AddEndpoint?
  {
  }

  /** Each induct and outduct comes after the declaration of its protocol in the same file. */
  lemma ProtocolsDeclaredFirst(c: Config, k: nat)
    requires k < |Bprc(c)| && (Bprc(c)[k].AddInduct? || Bprc(c)[k].AddOutduct?)
    ensures exists j :: 0 <= j < k && Bprc(c)[j] == AddProtocol(Bprc(c)[k].duct.protocol)
  {
    hide Protocols, Ducts, Links, LinkDucts, ProtocolOf, Endpoints;
    var ls := Links(c.neighbors);
    var es, ps, cmd := Endpoints(c), Protocols(ls), Bprc(c)[k];
    if 2 <= k < 2 + |es| {
      HeadHoldsNoDucts(c, k - 2);
    } else if 2 + |es| <= k < 2 + |es| + |ps| {
      OnlyProtocols(ls, k - 2 - |es|);
    }
    assert cmd in Ducts(ls);
    var l := DuctSource(ls, cmd);
    DuctOfItsProtocol(l, cmd);
    ProtocolListed(ls, l);
    var j :| 0 <= j < |ps| && ps[j] == AddProtocol(ProtocolOf(l));
    assert Bprc(c)[2 + |es| + j] == ps[j];
  }

  predicate IsLtpEngine(c: Config, engine: nat) {
    exists l :: l in Links(c.neighbors) && l.UsesLtp() && l.remoteEngine == engine
  }

  /** The outducts of the .bprc file are those of the configured links. */
  lemma OutductsAreLinks(c: Config, d: Duct)
    ensures AddOutduct(d) in Bprc(c) <==> exists l :: l in Links(c.neighbors) && DuctOf(l) == d
  {
    hide Ducts, Links, Uses, Endpoints;
    var ls := Links(c.neighbors);
    if AddOutduct(d) in Endpoints(c) {
      var k :| 0 <= k < |Endpoints(c)| && Endpoints(c)[k] == AddOutduct(d);
      HeadHoldsNoDucts(c, k);
    }
    if AddOutduct(d) in Bprc(c) {
      assert AddOutduct(d) in Ducts(ls);
      var l := DuctSource(ls, AddOutduct(d));
      assert l in ls && DuctOf(l) == d;
    }
    if exists l :: l in ls && DuctOf(l) == d {
      var l :| l in ls && DuctOf(l) == d;
      OutductIsLast(l);
      LinkHasDucts(ls, l, AddOutduct(d));
    }
  }

  // ------------------------------------------------- the files, command by command

  /** Where a link listens: the node's own engine for LTP, or the peer's host as the code writes
      it, with the bound port or 4556. */
  predicate IsLocalEnd(l: Link, d: Duct) {
    || (l.LtpUdp? && d == Duct(Ltp, Engine(l.localEngine)))
    || (l.Kiss? && d == Duct(Ltp, Engine(l.localEngine)))
    || (l.TcpCl? && d == Duct(Tcp, Socket(l.remoteHost, if l.boundPort.Some? then l.boundPort.value else 4556)))
    || (l.Udp? && d == Duct(UdpProtocol, Socket(l.remoteHost, if l.boundPort.Some? then l.boundPort.value else 4556)))
  }

  /** Where it sends: the peer's engine, or its host and port. */
  predicate IsRemoteEnd(l: Link, d: Duct) {
    || (l.LtpUdp? && d == Duct(Ltp, Engine(l.remoteEngine)))
    || (l.Kiss? && d == Duct(Ltp, Engine(l.remoteEngine)))
    || (l.TcpCl? && d == Duct(Tcp, Socket(l.remoteHost, l.remotePort)))
    || (l.Udp? && d == Duct(UdpProtocol, Socket(l.remoteHost, l.remotePort)))
  }

  lemma DuctsOfLink(l: Link)
    ensures |LinkDucts(l)| == 2 && LinkDucts(l)[0].AddInduct? && IsLocalEnd(l, LinkDucts(l)[0].duct)
    ensures LinkDucts(l)[1].AddOutduct? && IsRemoteEnd(l, LinkDucts(l)[1].duct)
    ensures forall d :: IsLocalEnd(l, d) <==> AddInduct(d) in LinkDucts(l)
    ensures forall d :: IsRemoteEnd(l, d) <==> AddOutduct(d) in LinkDucts(l)
    ensures forall d :: IsRemoteEnd(l, d) <==> DuctOf(l) == d
  {
    assert LinkDucts(l) == [LinkDucts(l)[0], LinkDucts(l)[1]];
  }

  lemma {:induction false} DuctsAt(ls: seq<Link>, i: nat)
    requires i < |ls|
    ensures |Ducts(ls)| == 2 * |ls|
    ensures [Ducts(ls)[2 * i], Ducts(ls)[2 * i + 1]] == LinkDucts(ls[i])
  {
    hide LinkDucts;
    var n := |ls| - 1;
    DuctsOfLink(ls[n]);
    if i < n {
      DuctsAt(ls[..n], i);
    } else if n > 0 {
      DuctsAt(ls[..n], 0);
    }
  }

  /** The duct section, link by link: where each listens, then at once where it sends. */
  lemma DuctsOfEachLink(c: Config, i: nat)
    requires i < |Links(c.neighbors)|
    ensures var l := Links(c.neighbors)[i];
            var k := 2 + |Endpoints(c)| + |Protocols(Links(c.neighbors))| + 2 * i;
            && k + 1 < |Bprc(c)|
            && Bprc(c)[k].AddInduct? && IsLocalEnd(l, Bprc(c)[k].duct)
            && Bprc(c)[k + 1].AddOutduct? && IsRemoteEnd(l, Bprc(c)[k + 1].duct)
  {
    hide Ducts, Links, LinkDucts, Endpoints, Protocols, IsLocalEnd, IsRemoteEnd;
    var ls := Links(c.neighbors);
    DuctsAt(ls, i);
    DuctsOfLink(ls[i]);
    var k := 2 + |Endpoints(c)| + |Protocols(ls)|;
    assert Bprc(c)[k + 2 * i] == Ducts(ls)[2 * i] && Bprc(c)[k + 2 * i + 1] == Ducts(ls)[2 * i + 1];
  }

  /** The node listens at exactly the links' local ends, and sends to exactly their remote ends. */
  lemma DuctsExactly(c: Config, d: Duct)
    ensures AddInduct(d) in Bprc(c) <==> exists l :: l in Links(c.neighbors) && IsLocalEnd(l, d)
    ensures AddOutduct(d) in Bprc(c) <==> exists l :: l in Links(c.neighbors) && IsRemoteEnd(l, d)
  {
    hide Ducts, Links, Endpoints, Protocols, LinkDucts, IsLocalEnd, IsRemoteEnd, DuctOf;
    var ls := Links(c.neighbors);
    OnlyDuctsIn(c, AddInduct(d));
    OnlyDuctsIn(c, AddOutduct(d));
    if AddInduct(d) in Ducts(ls) {
      var l := DuctSource(ls, AddInduct(d));
      DuctsOfLink(l);
    }
    if AddOutduct(d) in Ducts(ls) {
      var l := DuctSource(ls, AddOutduct(d));
      DuctsOfLink(l);
    }
    forall l | l in ls ensures IsLocalEnd(l, d) ==> AddInduct(d) in Ducts(ls) {
      DuctsOfLink(l);
      if IsLocalEnd(l, d) {
        LinkHasDucts(ls, l, AddInduct(d));
      }
    }
    forall l | l in ls ensures IsRemoteEnd(l, d) ==> AddOutduct(d) in Ducts(ls) {
      DuctsOfLink(l);
      if IsRemoteEnd(l, d) {
        LinkHasDucts(ls, l, AddOutduct(d));
      }
    }
  }

  lemma OnlyDuctsIn(c: Config, cmd: Command)
    requires cmd.AddInduct? || cmd.AddOutduct?
    ensures cmd in Bprc(c) <==> cmd in Ducts(Links(c.neighbors))
  {
    hide Ducts, Links;
    var ls := Links(c.neighbors);
    if cmd in Protocols(ls) {
      var j :| 0 <= j < |Protocols(ls)| && Protocols(ls)[j] == cmd;
      OnlyProtocols(ls, j);
    }
  }

  /** The other commands of the .bprc file: a protocol for each kind of link, LTP also for KISS,
      and the admin, service and callsign endpoints. */
  lemma DeclarationsExactly(c: Config, p: Protocol, e: EndpointId)
    ensures AddProtocol(p) in Bprc(c) <==>
            exists l :: l in Links(c.neighbors) && ((p == Ltp && (l.LtpUdp? || l.Kiss?)) ||
                                                    (p == Tcp && l.TcpCl?) || (p == UdpProtocol && l.Udp?))
    ensures AddEndpoint(e) in Bprc(c) <==>
            || e == Ipn(c.localNode, 0) || c.callsign == Some(e)
            || exists i :: 0 <= i < |c.services| && e == Ipn(c.localNode, c.services[i])
  {
    hide Links, Ducts, Endpoints, Protocols;
    var ls := Links(c.neighbors);
    OnlyDucts(ls, AddProtocol(p));
    OnlyDucts(ls, AddEndpoint(e));
    NoProtocolEndpoint(c, p);
    NoEndpointProtocol(ls, e);
    ProtocolsExactly(ls, p);
    EndpointsExactly(c, e);
  }

  /** Protocols are declared once each, LTP before TCP before UDP. */
  lemma ProtocolsInOrder(ls: seq<Link>, i: nat, j: nat)
    requires i < j < |Protocols(ls)|
    ensures Protocols(ls)[i].AddProtocol? && Protocols(ls)[j].AddProtocol?
    ensures var p, q := Protocols(ls)[i].protocol, Protocols(ls)[j].protocol;
            (p == Ltp && q != Ltp) || (p == Tcp && q == UdpProtocol)
  {
    hide Uses;
  }

  lemma NoEndpointProtocol(ls: seq<Link>, e: EndpointId)
    ensures AddEndpoint(e) !in Protocols(ls)
  {
    hide Uses;
  }

  lemma ProtocolsExactly(ls: seq<Link>, p: Protocol)
    ensures AddProtocol(p) in Protocols(ls) <==>
            exists l :: l in ls && ((p == Ltp && (l.LtpUdp? || l.Kiss?)) ||
                                    (p == Tcp && l.TcpCl?) || (p == UdpProtocol && l.Udp?))
  {
    assert AddProtocol(p) in Protocols(ls) <==> Uses(ls, p) by { hide Uses; }
    forall l | l in ls && ProtocolOf(l) == p ensures Uses(ls, p) {
      var i :| 0 <= i < |ls| && ls[i] == l;
    }
  }

  lemma NoProtocolEndpoint(c: Config, p: Protocol)
    ensures AddProtocol(p) !in Endpoints(c)
  {
  }

  lemma EndpointsExactly(c: Config, e: EndpointId)
    ensures AddEndpoint(e) in Endpoints(c) <==>
            || e == Ipn(c.localNode, 0) || c.callsign == Some(e)
            || exists i :: 0 <= i < |c.services| && e == Ipn(c.localNode, c.services[i])
  {
    var services := ServiceEndpoints(c.localNode, c.services);
    forall i | 0 <= i < |c.services| ensures AddEndpoint(Ipn(c.localNode, c.services[i])) in services {
      assert services[i] in services;
    }
  }

  lemma {:induction false} OnlyDucts(ls: seq<Link>, cmd: Command)
    requires !cmd.AddInduct? && !cmd.AddOutduct?
    ensures cmd !in Ducts(ls)
  {
    if cmd in Ducts(ls) {
      var l := DuctSource(ls, cmd);
      DuctOfItsProtocol(l, cmd);
    }
  }

  /** The span a link asks for: the peer's engine, the link's segment size or 1400, and how to
      reach the peer. */
  predicate IsSpanOf(l: Link, engine: nat, size: nat, lso: LinkService) {
    || (l.LtpUdp? && engine == l.remoteEngine && size == (if l.mtu.Some? then l.mtu.value else 1400)
        && lso == UdpLso(l.remoteHost, l.remotePort))
    || (l.Kiss? && engine == l.remoteEngine && size == (if l.frameSize.Some? then l.frameSize.value else 1400)
        && lso == KissLo(l.tncDevice))
  }

  lemma SpanOfLink(l: Link, cmd: Command)
    ensures cmd in LinkSpan(l) <==>
            cmd.AddSpan? && cmd.limits == SpanLimits(32, 32, 100000, 1) && IsSpanOf(l, cmd.engine, cmd.segmentSize, cmd.lso)
  {
  }

  lemma {:induction false} SpanSource(ls: seq<Link>, cmd: Command) returns (l: Link)
    requires cmd in Spans(ls)
    ensures l in ls && cmd in LinkSpan(l)
  {
    var n := |ls| - 1;
    if cmd in LinkSpan(ls[n]) {
      l := ls[n];
    } else {
      l := SpanSource(ls[..n], cmd);
    }
  }

  /** The spans are those of the LTP-carrying links and the loopback, which points where the
      node listens. */
  lemma SpansExactly(c: Config, limits: SpanLimits, engine: nat, size: nat, lso: LinkService)
    ensures var port := LtpPort(Links(c.neighbors));
            && Ltprc(c)[0] == InitializeLtp(32) && ListenLtp(port) in Ltprc(c)
            && (AddSpan(engine, limits, size, lso) in Ltprc(c) <==>
                limits == SpanLimits(32, 32, 100000, 1) &&
                ((engine == c.localNode && size == 1400 && lso == UdpLso("127.0.0.1", port)) ||
                 exists l :: l in Links(c.neighbors) && IsSpanOf(l, engine, size, lso)))
  {
    hide Spans, Links, LinkSpan, IsSpanOf, LtpPort;
    var ls, cmd := Links(c.neighbors), AddSpan(engine, limits, size, lso);
    if cmd in Spans(ls) {
      var l := SpanSource(ls, cmd);
      SpanOfLink(l, cmd);
    }
    forall l | l in ls && IsSpanOf(l, engine, size, lso) && limits == SpanLimits(32, 32, 100000, 1)
      ensures cmd in Spans(ls)
    {
      SpanOfLink(l, cmd);
      LinkHasSpan(ls, l, cmd);
    }
  }

  /** The port is the local one of the first LTP/UDP link, 1113 without any. */
  lemma PortExactly(before: seq<Link>, l: Link, rest: seq<Link>)
    requires NoLtpUdp(before)
    ensures LtpPort(before) == 1113
    ensures l.LtpUdp? ==> LtpPort(before + [l] + rest) == l.localPort
  {
    FallbackPort(before);
    if l.LtpUdp? {
      FirstLtpPort(before, l, rest);
    }
  }

  lemma {:induction false} NeighborPlansExactly(ns: seq<Neighbor>, node: nat, via: Duct)
    ensures AddPlan(node, via) in NeighborPlans(ns) <==>
            exists i :: 0 <= i < |ns| && ns[i].node == node && ns[i].links != [] && IsRemoteEnd(ns[i].links[0], via)
  {
    hide IsRemoteEnd, DuctOf;
    if ns != [] {
      var n := |ns| - 1;
      NeighborPlansExactly(ns[..n], node, via);
      if ns[n].links != [] {
        DuctsOfLink(ns[n].links[0]);
      }
      assert forall i :: 0 <= i < n ==> ns[..n][i] == ns[i];
    }
  }

  /** The plans are one per linked neighbour, to the remote end of its first link, and under
      static routing one per route, to the LTP engine numbered like its next hop. */
  lemma PlansExactly(c: Config, node: nat, via: Duct)
    ensures AddPlan(node, via) in Ipnrc(c) <==>
            || (exists i :: 0 <= i < |c.neighbors| && c.neighbors[i].node == node && c.neighbors[i].links != []
                            && IsRemoteEnd(c.neighbors[i].links[0], via))
            || (c.strategy == Static && exists i :: 0 <= i < |c.routes| && c.routes[i].dest == node
                                                    && via == Duct(Ltp, Engine(c.routes[i].nextHop)))
  {
    hide IsRemoteEnd, NeighborPlans;
    NeighborPlansExactly(c.neighbors, node, via);
    var routed := RoutePlans(c.routes);
    forall i | 0 <= i < |c.routes| ensures routed[i] in routed {
    }
  }

  /** The contacts are the planned ones and the loopback of a day. */
  lemma ContactsExactly(c: Config, start: int, end: int, source: nat, dest: nat, rate: nat)
    ensures AddContact(start, end, source, dest, rate) in Ionrc(c) <==>
            || (start == 0 && end == 86400 && source == c.localNode && dest == c.localNode && rate == 100000)
            || exists i :: 0 <= i < |c.contacts| && c.contacts[i] == Contact(source, dest, start, end, rate)
  {
    var planned := ContactCommands(c.contacts);
    forall i | 0 <= i < |c.contacts| ensures planned[i] in planned {
    }
    if AddContact(start, end, source, dest, rate) in planned {
      var i :| 0 <= i < |planned| && planned[i] == AddContact(start, end, source, dest, rate);
      assert c.contacts[i] == Contact(source, dest, start, end, rate);
    }
  }

  lemma OutductIsLast(l: Link)
    ensures AddOutduct(DuctOf(l)) in LinkDucts(l)
  {
    assert LinkDucts(l)[1] == AddOutduct(DuctOf(l));
  }

  /** Each LTP outduct has a span with the same engine ID. */
  lemma LtpOutductsHaveSpans(c: Config, engine: nat)
    requires AddOutduct(Duct(Ltp, Engine(engine))) in Bprc(c)
    ensures exists size, lso :: AddSpan(engine, SPAN_LIMITS, size, lso) in Ltprc(c)
  {
    var ls := Links(c.neighbors);
    OutductsAreLinks(c, Duct(Ltp, Engine(engine)));
    var l :| l in ls && DuctOf(l) == Duct(Ltp, Engine(engine));
    var span := LinkSpan(l)[0];
    assert span == AddSpan(engine, SPAN_LIMITS, span.segmentSize, span.lso);
    LinkHasSpan(ls, l, span);
    assert span in Ltprc(c);
  }

  lemma {:induction false} NeighborPlansNameLinks(ns: seq<Neighbor>, k: nat)
    requires k < |NeighborPlans(ns)|
    ensures NeighborPlans(ns)[k].AddPlan?
    ensures exists l :: l in Links(ns) && DuctOf(l) == NeighborPlans(ns)[k].via
  {
    var n := |ns| - 1;
    if k < |NeighborPlans(ns[..n])| {
      NeighborPlansNameLinks(ns[..n], k);
      var l :| l in Links(ns[..n]) && DuctOf(l) == NeighborPlans(ns[..n])[k].via;
      assert l in Links(ns);
    } else {
      assert ns[n].links[0] in Links(ns);
    }
  }

  /** Every plan names an outduct declared in the .bprc file exactly when routing is not
      static, or every static next hop happens to be the engine ID of an LTP link: the
      generator writes the next hop's node number where an engine ID is read. */
  lemma PlansNameOutductsExactly(c: Config)
    ensures (forall k :: 0 <= k < |Ipnrc(c)| ==> PlanIsGrounded(c, k)) <==>
            (c.strategy == Static ==> forall i :: 0 <= i < |c.routes| ==> IsLtpEngine(c, c.routes[i].nextHop))
  {
    var routed := if c.strategy == Static then RoutePlans(c.routes) else [];
    forall k | |routed| <= k < |Ipnrc(c)| ensures PlanIsGrounded(c, k) {
      NeighborPlansNameLinks(c.neighbors, k - |routed|);
      OutductsAreLinks(c, Ipnrc(c)[k].via);
    }
    if c.strategy == Static {
      forall i | 0 <= i < |c.routes|
        ensures PlanIsGrounded(c, i) <==> IsLtpEngine(c, c.routes[i].nextHop)
      {
        assert Ipnrc(c)[i] == RoutePlans(c.routes)[i];
        EngineOutducts(c, c.routes[i].nextHop);
      }
    }
  }

  /** One TCP neighbour, and a static route to it. */
  const STATIC_OVER_TCP :=
    Config(1, [], None, [Neighbor(2, [TcpCl("host", 4556, None)])], [], [], Static, [Route(2, 2)])

  /** The validator accepts it, and its route's plan names an LTP outduct that is not there. */
  lemma AcceptedYetUngrounded()
    ensures IsAccepted(STATIC_OVER_TCP) && !PlanIsGrounded(STATIC_OVER_TCP, 0)
  {
    var c := STATIC_OVER_TCP;
    assert c.neighbors[0].node in c.DefinedNodes();
    var l := c.neighbors[0].links[0];
    assert c.neighbors[..0] == [] && Links(c.neighbors) == [] + [l] == [l];
    EngineOutducts(c, 2);
    assert Ipnrc(c)[0] == RoutePlans(c.routes)[0];
  }

  ghost predicate PlanIsGrounded(c: Config, k: nat) {
    k < |Ipnrc(c)| && Ipnrc(c)[k].AddPlan? && AddOutduct(Ipnrc(c)[k].via) in Bprc(c)
  }

  lemma EngineOutducts(c: Config, engine: nat)
    ensures AddOutduct(Duct(Ltp, Engine(engine))) in Bprc(c) <==> IsLtpEngine(c, engine)
  {
    OutductsAreLinks(c, Duct(Ltp, Engine(engine)));
    if IsLtpEngine(c, engine) {
      var l :| l in Links(c.neighbors) && l.UsesLtp() && l.remoteEngine == engine;
      assert DuctOf(l) == Duct(Ltp, Engine(engine));
    }
  }

  // ------------------------------------------------------------ one plan per neighbour

  function CountPlans(cmds: seq<Command>, node: nat): nat {
    if cmds == [] then 0
    else
      var last := cmds[|cmds| - 1];
      CountPlans(cmds[..|cmds| - 1], node) + if last.AddPlan? && last.node == node then 1 else 0
  }

  lemma {:induction false} CountConcat(a: seq<Command>, b: seq<Command>, node: nat)
    ensures CountPlans(a + b, node) == CountPlans(a, node) + CountPlans(b, node)
  {
    if b == [] {
      assert a + b == a;
    } else {
      var n := |b| - 1;
      CountConcat(a, b[..n], node);
      assert (a + b)[..|a| + n] == a + b[..n];
    }
  }

  /** The node is a neighbour with at least one link. */
  ghost predicate IsLinked(ns: seq<Neighbor>, node: nat) {
    exists i :: 0 <= i < |ns| && ns[i].node == node && ns[i].links != []
  }

  lemma {:induction false} NeighborPlanCount(ns: seq<Neighbor>, node: nat)
    requires forall i, j :: 0 <= i < j < |ns| ==> ns[i].node != ns[j].node
    ensures CountPlans(NeighborPlans(ns), node) == if IsLinked(ns, node) then 1 else 0
  {
    hide IsLinked, CountPlans;
    if ns == [] {
      NoneLinked(node);
    } else {
      var n := |ns| - 1;
      NeighborPlanCount(ns[..n], node);
      CountConcat(NeighborPlans(ns[..n]), NeighborPlan(ns[n]), node);
      LinkedSnoc(ns, node);
      CountNeighborPlan(ns[n], node);
      NotLinkedEarlier(ns);
    }
  }

  lemma NoneLinked(node: nat)
    ensures !IsLinked([], node) && CountPlans([], node) == 0
  {
  }

  lemma CountNeighborPlan(n: Neighbor, node: nat)
    ensures CountPlans(NeighborPlan(n), node) == if n.links != [] && n.node == node then 1 else 0
  {
    if n.links != [] {
      assert NeighborPlan(n)[..0] == [];
    }
  }

  lemma NotLinkedEarlier(ns: seq<Neighbor>)
    requires ns != [] && forall i, j :: 0 <= i < j < |ns| ==> ns[i].node != ns[j].node
    ensures !IsLinked(ns[..|ns| - 1], ns[|ns| - 1].node)
  {
  }

  lemma LinkedSnoc(ns: seq<Neighbor>, node: nat)
    requires ns != []
    ensures var n := |ns| - 1;
            IsLinked(ns, node) <==> IsLinked(ns[..n], node) || (ns[n].node == node && ns[n].links != [])
  {
    var n := |ns| - 1;
    if IsLinked(ns[..n], node) {
      var i :| 0 <= i < n && ns[..n][i].node == node && ns[..n][i].links != [];
      assert ns[i].node == node && ns[i].links != [];
    }
    if IsLinked(ns, node) && !(ns[n].node == node && ns[n].links != []) {
      var i :| 0 <= i < |ns| && ns[i].node == node && ns[i].links != [];
      assert ns[..n][i].node == node && ns[..n][i].links != [];
    }
  }

  /** For an accepted configuration: the plans for a node are one if it is a linked neighbour,
      plus the static routes to it. Without static routing that is exactly one per linked neighbour. */
  lemma PlansPerNode(c: Config, node: nat)
    requires IsAccepted(c)
    ensures CountPlans(Ipnrc(c), node) ==
            (if IsLinked(c.neighbors, node) then 1 else 0)
            + (if c.strategy == Static then CountPlans(RoutePlans(c.routes), node) else 0)
  {
    forall i, j | 0 <= i < j < |c.neighbors| ensures c.neighbors[i].node != c.neighbors[j].node {
      NeighborsDistinct(c, i, j);
    }
    NeighborPlanCount(c.neighbors, node);
    CountConcat(if c.strategy == Static then RoutePlans(c.routes) else [], NeighborPlans(c.neighbors), node);
  }

  /** Every contact written to the .ionrc file names defined nodes. */
  lemma ContactsNameDefinedNodes(c: Config, k: nat)
    requires IsAccepted(c) && k < |Ionrc(c)|
    ensures Ionrc(c)[k].AddContact?
    ensures Ionrc(c)[k].source in c.DefinedNodes() && Ionrc(c)[k].dest in c.DefinedNodes()
  {
    if k > 0 {
      assert !Violates(c, ContactSource(k - 1)) && !Violates(c, ContactDest(k - 1));
      assert Ionrc(c)[k] == ContactCommands(c.contacts)[k - 1];
    }
  }
}
