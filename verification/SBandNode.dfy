/** The node controller over the S-band adapter (pkg/node/controller.go with
    pkg/cla/sband_iq/sband_iq.go): what follows only from putting the two together. */
module SBandNode {
  import opened Prelude
  import opened Bpa
  import opened Contact
  import opened Store
  import opened Ledger
  import Node
  import SBand

  // ------------------------------------------------------- the adapter's answers

  /** Whether the adapter, open or not, can answer a call that way. */
  predicate CanAnswer(open: bool, c: Node.LinkCall) {
    match c
    case Opened(_, ok) => ok ==> !open
    case Sent(_, ok) => ok ==> open
    case Polled(received) => received.Some? ==> open
    case Closed(ok) => open || ok
  }

  function OpenAfter(open: bool, c: Node.LinkCall): bool {
    match c
    case Opened(_, ok) => open || ok
    case Closed(ok) => open && !ok
    case _ => open
  }

  function OpenAfterAll(open: bool, calls: seq<Node.LinkCall>): bool
    decreases |calls|
  {
    if calls == [] then open else OpenAfterAll(OpenAfter(open, calls[0]), calls[1..])
  }

  /** The adapter, open or not at first, can answer all the calls that way. */
  predicate IsRun(open: bool, calls: seq<Node.LinkCall>)
    decreases |calls|
  {
    calls == [] || (CanAnswer(open, calls[0]) && IsRun(OpenAfter(open, calls[0]), calls[1..]))
  }

  lemma {:induction false} RunConcat(open: bool, a: seq<Node.LinkCall>, b: seq<Node.LinkCall>)
    ensures IsRun(open, a + b) <==> IsRun(open, a) && IsRun(OpenAfterAll(open, a), b)
    ensures OpenAfterAll(open, a + b) == OpenAfterAll(OpenAfterAll(open, a), b)
    decreases |a|
  {
    if a == [] {
      assert a + b == b;
    } else {
      RunConcat(OpenAfter(open, a[0]), a[1..], b);
      assert (a + b)[1..] == a[1..] + b;
    }
  }

  lemma RunOne(open: bool, c: Node.LinkCall)
    ensures IsRun(open, [c]) <==> CanAnswer(open, c)
    ensures OpenAfterAll(open, [c]) == OpenAfter(open, c)
  {
    assert [c][1..] == [];
  }

  lemma RunSnoc(open: bool, calls: seq<Node.LinkCall>, c: Node.LinkCall)
    ensures IsRun(open, calls + [c]) <==> IsRun(open, calls) && CanAnswer(OpenAfterAll(open, calls), c)
    ensures OpenAfterAll(open, calls + [c]) == OpenAfter(OpenAfterAll(open, calls), c)
  {
    RunConcat(open, calls, [c]);
    RunOne(OpenAfterAll(open, calls), c);
  }

  /** The S-band adapter behind the node's link interface: its answers are always such a run. */
  class SBandLink {
    const cla: SBand.SBandIQCLA
    ghost const wasOpen: bool
    ghost var calls: seq<Node.LinkCall>

    constructor (cla: SBand.SBandIQCLA)
      requires cla.Valid()
      ensures this.cla == cla && wasOpen == cla.isOpen && calls == [] && Valid()
    {
      this.cla, wasOpen, calls := cla, cla.isOpen, [];
    }

    ghost predicate Valid()
      reads this, cla
    {
      cla.Valid() && IsRun(wasOpen, calls) && cla.isOpen == OpenAfterAll(wasOpen, calls)
    }

    method Open(window: ContactWindow) returns (ok: bool)
      requires Valid()
      modifies this, cla, cla.transceiver
      ensures Valid() && calls == old(calls) + [Node.Opened(window, ok)]
    {
      var r := cla.Open();
      ok := r.Ok?;
      RunSnoc(wasOpen, calls, Node.Opened(window, ok));
      calls := calls + [Node.Opened(window, ok)];
    }

    method SendBundle(bundle: Bundle) returns (ok: bool)
      requires Valid() && SBand.IsByteString(bundle.destination.Print())
      modifies this, cla, cla.transceiver
      ensures Valid() && calls == old(calls) + [Node.Sent(bundle, ok)]
    {
      var r := cla.SendBundle(bundle);
      ok := r.Ok?;
      RunSnoc(wasOpen, calls, Node.Sent(bundle, ok));
      calls := calls + [Node.Sent(bundle, ok)];
    }

    method RecvBundle() returns (received: Option<Bundle>)
      requires Valid()
      modifies this, cla, cla.transceiver
      ensures Valid() && calls == old(calls) + [Node.Polled(received)]
    {
      var r, _ := cla.RecvBundle();
      received := if r.Ok? then Some(r.value) else None;
      RunSnoc(wasOpen, calls, Node.Polled(received));
      calls := calls + [Node.Polled(received)];
    }

    method Close() returns (ok: bool)
      requires Valid()
      modifies this, cla, cla.transceiver
      ensures Valid() && calls == old(calls) + [Node.Closed(ok)]
    {
      var r := cla.Close();
      ok := r.Ok?;
      RunSnoc(wasOpen, calls, Node.Closed(ok));
      calls := calls + [Node.Closed(ok)];
    }
  }

  // --------------------------------------------------------------------- one cycle

  lemma {:induction false} SendingKeepsOpen(bs: seq<Bundle>)
    ensures IsRun(true, Node.Accepted(bs)) && OpenAfterAll(true, Node.Accepted(bs))
  {
    if bs != [] {
      SendingKeepsOpen(bs[1..]);
      assert Node.Accepted(bs)[1..] == Node.Accepted(bs[1..]);
    }
  }

  /** A window comes up only on a closed link, and leaves it closed unless its Close fails. */
  lemma WindowRun(open: bool, s: Node.Sends)
    requires s.sent <= s.queue
    ensures IsRun(open, Node.WindowCalls(s)) <==> (s.linkUp ==> !open)
    ensures IsRun(open, Node.WindowCalls(s)) ==>
              OpenAfterAll(open, Node.WindowCalls(s)) == if s.linkUp then !s.closed else open
  {
    hide Node.Accepted, IsRun, OpenAfterAll;
    if s.linkUp {
      var up, accepted := [Node.Opened(s.window, true)], Node.Accepted(s.sent);
      var refused := if |s.sent| < |s.queue| then [Node.Sent(s.queue[|s.sent|], false)] else [];
      RunOne(open, Node.Opened(s.window, true));
      RunConcat(open, up, accepted);
      SendingKeepsOpen(s.sent);
      RunConcat(open, up + accepted, refused);
      if |s.sent| < |s.queue| {
        RunOne(true, Node.Sent(s.queue[|s.sent|], false));
      } else {
        RunNothing(true);
      }
      RunSnoc(open, up + accepted + refused, Node.Closed(s.closed));
    } else {
      RunOne(open, Node.Opened(s.window, false));
    }
  }

  lemma RunNothing(open: bool)
    ensures IsRun(open, []) && OpenAfterAll(open, []) == open
  {
  }

  /** Some window came up and its Close failed. */
  predicate LeftOpen(sends: seq<Node.Sends>) {
    exists i :: 0 <= i < |sends| && sends[i].linkUp && !sends[i].closed
  }

  predicate AllDown(sends: seq<Node.Sends>) {
    forall i :: 0 <= i < |sends| ==> !sends[i].linkUp
  }

  predicate AllPrefixes(sends: seq<Node.Sends>) {
    forall i :: 0 <= i < |sends| ==> sends[i].sent <= sends[i].queue
  }

  /** After the windows of a cycle the link is open exactly if it was before or a Close failed;
      an open link brings no window up. */
  lemma {:induction false} WindowsRun(open: bool, sends: seq<Node.Sends>)
    requires AllPrefixes(sends) && IsRun(open, Node.CallLog(sends))
    ensures OpenAfterAll(open, Node.CallLog(sends)) <==> open || LeftOpen(sends)
    ensures open ==> AllDown(sends)
  {
    hide IsRun, OpenAfterAll, Node.WindowCalls, LeftOpen;
    if sends == [] {
      RunNothing(open);
      NoneLeftOpen();
    } else {
      var n := |sends| - 1;
      RunConcat(open, Node.CallLog(sends[..n]), Node.WindowCalls(sends[n]));
      WindowsRun(open, sends[..n]);
      WindowRun(OpenAfterAll(open, Node.CallLog(sends[..n])), sends[n]);
      LeftOpenSnoc(sends);
      assert open ==> forall i :: 0 <= i < n ==> !sends[..n][i].linkUp;
    }
  }

  lemma NoneLeftOpen()
    ensures !LeftOpen([])
  {
  }

  lemma LeftOpenSnoc(sends: seq<Node.Sends>)
    requires sends != []
    ensures var n := |sends| - 1;
            LeftOpen(sends) <==> LeftOpen(sends[..n]) || (sends[n].linkUp && !sends[n].closed)
  {
    var n := |sends| - 1;
    if LeftOpen(sends[..n]) {
      var i :| 0 <= i < n && sends[..n][i].linkUp && !sends[..n][i].closed;
      assert sends[i].linkUp && !sends[i].closed;
    }
    if LeftOpen(sends) && !(sends[n].linkUp && !sends[n].closed) {
      var i :| 0 <= i < |sends| && sends[i].linkUp && !sends[i].closed;
      assert sends[..n][i].linkUp && !sends[..n][i].closed;
    }
  }

  /** The cycle receives after every window has been closed again: it can receive anything only
      if the link was open before the cycle or a Close in it failed. */
  lemma ReceptionExactly(open: bool, sends: seq<Node.Sends>, b: Bundle)
    requires AllPrefixes(sends)
    ensures IsRun(open, Node.CallLog(sends) + [Node.Polled(Some(b))]) <==>
            IsRun(open, Node.CallLog(sends)) && (open || LeftOpen(sends))
  {
    RunSnoc(open, Node.CallLog(sends), Node.Polled(Some(b)));
    if IsRun(open, Node.CallLog(sends)) {
      WindowsRun(open, sends);
    }
  }

  /** It happens: an empty queue, a link that comes up, a Close that fails, and a reception. */
  lemma ReceptionCanHappen(w: ContactWindow, b: Bundle)
    ensures IsRun(false, Node.CallLog([Node.Sends(w, true, [], [], false)]) + [Node.Polled(Some(b))])
  {
    var s := Node.Sends(w, true, [], [], false);
    assert [s][..0] == [] && Node.CallLog([s]) == [] + Node.WindowCalls(s) == Node.WindowCalls(s);
    WindowRun(false, s);
    assert LeftOpen([s]) by { assert [s][0].linkUp && ![s][0].closed; }
    ReceptionExactly(false, [s], b);
  }

  // -------------------------------------------------------------------- whole runs

  /** What RunCycle leaves on the link's record. */
  datatype Cycle = Cycle(sends: seq<Node.Sends>, received: Option<Bundle>)
  {
    function Calls(): seq<Node.LinkCall> { Node.CallLog(sends) + [Node.Polled(received)] }
  }

  function RunCalls(cycles: seq<Cycle>): seq<Node.LinkCall> {
    if cycles == [] then [] else RunCalls(cycles[..|cycles| - 1]) + cycles[|cycles| - 1].Calls()
  }

  predicate Sound(cycles: seq<Cycle>) {
    forall i :: 0 <= i < |cycles| ==> AllPrefixes(cycles[i].sends)
  }

  lemma CycleRun(open: bool, c: Cycle)
    requires AllPrefixes(c.sends) && IsRun(open, c.Calls())
    ensures OpenAfterAll(open, c.Calls()) <==> open || LeftOpen(c.sends)
    ensures open ==> AllDown(c.sends)
    ensures c.received.Some? ==> OpenAfterAll(open, c.Calls())
  {
    RunSnoc(open, Node.CallLog(c.sends), Node.Polled(c.received));
    WindowsRun(open, c.sends);
  }

  lemma RunCallsSnoc(open: bool, cycles: seq<Cycle>, i: nat)
    requires i < |cycles| && IsRun(open, RunCalls(cycles[..i + 1]))
    ensures IsRun(open, RunCalls(cycles[..i])) && IsRun(OpenAfterAll(open, RunCalls(cycles[..i])), cycles[i].Calls())
    ensures OpenAfterAll(open, RunCalls(cycles[..i + 1]))
            == OpenAfterAll(OpenAfterAll(open, RunCalls(cycles[..i])), cycles[i].Calls())
  {
    hide IsRun, OpenAfterAll, Cycle.Calls;
    assert cycles[..i + 1][..i] == cycles[..i];
    RunConcat(open, RunCalls(cycles[..i]), cycles[i].Calls());
  }

  lemma {:induction false} RunPrefix(open: bool, cycles: seq<Cycle>, i: nat)
    requires i <= |cycles| && IsRun(open, RunCalls(cycles))
    ensures IsRun(open, RunCalls(cycles[..i]))
    decreases |cycles| - i
  {
    hide IsRun, OpenAfterAll;
    if i < |cycles| {
      RunPrefix(open, cycles, i + 1);
      RunCallsSnoc(open, cycles, i);
    } else {
      assert cycles[..i] == cycles;
    }
  }

  /** A node that starts with the link closed and never sees a Close fail never receives anything. */
  lemma {:induction false} NeverReceives(cycles: seq<Cycle>)
    requires Sound(cycles) && IsRun(false, RunCalls(cycles))
    requires forall i :: 0 <= i < |cycles| ==> !LeftOpen(cycles[i].sends)
    ensures forall i :: 0 <= i < |cycles| ==> cycles[i].received.None?
    ensures !OpenAfterAll(false, RunCalls(cycles))
  {
    hide IsRun, OpenAfterAll, Cycle.Calls, LeftOpen;
    if cycles == [] {
      RunNothing(false);
    } else {
      var n := |cycles| - 1;
      assert cycles[..n + 1] == cycles;
      RunCallsSnoc(false, cycles, n);
      NeverReceives(cycles[..n]);
      CycleRun(false, cycles[n]);
      assert forall i :: 0 <= i < n ==> cycles[..n][i].received.None?;
    }
  }

  lemma {:induction false} StaysOpen(open: bool, cycles: seq<Cycle>, i: nat, j: nat)
    requires Sound(cycles) && IsRun(open, RunCalls(cycles)) && i <= j <= |cycles|
    requires OpenAfterAll(open, RunCalls(cycles[..i]))
    ensures OpenAfterAll(open, RunCalls(cycles[..j]))
    decreases j
  {
    hide IsRun, OpenAfterAll, Cycle.Calls, LeftOpen;
    if i < j {
      StaysOpen(open, cycles, i, j - 1);
      RunPrefix(open, cycles, j);
      RunCallsSnoc(open, cycles, j - 1);
      CycleRun(OpenAfterAll(open, RunCalls(cycles[..j - 1])), cycles[j - 1]);
    }
  }

  /** Once anything has been received no later window ever comes up: the link that was open for
      the reception refuses to open again, and only a window that came up would close it. */
  lemma NoSendingAfterReception(open: bool, cycles: seq<Cycle>, i: nat, j: nat)
    requires Sound(cycles) && IsRun(open, RunCalls(cycles)) && i < j < |cycles| && cycles[i].received.Some?
    ensures AllDown(cycles[j].sends)
  {
    hide IsRun, OpenAfterAll, Cycle.Calls, LeftOpen;
    RunPrefix(open, cycles, i + 1);
    RunCallsSnoc(open, cycles, i);
    CycleRun(OpenAfterAll(open, RunCalls(cycles[..i])), cycles[i]);
    StaysOpen(open, cycles, i + 1, j);
    RunPrefix(open, cycles, j + 1);
    RunCallsSnoc(open, cycles, j);
    CycleRun(OpenAfterAll(open, RunCalls(cycles[..j])), cycles[j]);
  }

  // --------------------------------------------------- what becomes of what arrives

  /** Every bundle that arrives has the same identity. */
  lemma ArrivalsShareOneKey(a: Bundle, b: Bundle)
    requires SBand.IsRepresentable(a) && SBand.IsRepresentable(b)
    ensures SBand.Arrived(a).Key() == SBand.Arrived(b).Key() == "ipn://0.0-0-0"
  {
  }

  /** So a store that holds one arrival refuses every other. */
  lemma SecondArrivalRefused(a: Bundle, b: Bundle, t: int, stored: bool, before: Contents, used: int,
                             after: Contents, earlier: seq<Event>, log: seq<Event>, max: int)
    requires SBand.IsRepresentable(a) && SBand.IsRepresentable(b) && SBand.Arrived(a).Key() in before
    requires Node.Admission(SBand.Arrived(b), t, stored, before, used, after, earlier, log, max)
    ensures !stored && after == before && log == earlier + [Refused(SBand.Arrived(b))]
  {
    ArrivalsShareOneKey(a, b);
  }

  /** The creation time does not travel, so an arrival counts as created at time zero: it is valid
      only in the first `lifetime` seconds of the clock, and only with a destination left. */
  lemma ArrivalValidExactly(b: Bundle, t: int)
    requires SBand.IsRepresentable(b)
    ensures IsValidBundle(SBand.Arrived(b), t) <==> 0 <= t < b.lifetime && |b.destination.Print()| % 256 != 0
  {
  }

  /** An arrival is never in a window's queue: windows serve the dtn scheme, arrivals carry ipn. */
  lemma ArrivalNeverForwarded(b: Bundle, m: Contents, node: NodeID, queue: seq<Bundle>)
    requires SBand.IsRepresentable(b) && ListedFor(m, EndpointID("dtn", node), queue)
    ensures SBand.Arrived(b) !in queue
  {
    assert SBand.Arrived(b).destination.scheme[0] == 'i' && "dtn"[0] == 'd';
  }
}
