/** The node controller's operation cycle (pkg/node/controller.go), proved to follow the
    event log of Ledger. The link answers arbitrarily. */
module Node {
  import opened Prelude
  import opened Sorting
  import opened Bpa
  import opened Contact
  import opened Store
  import opened Ledger

  datatype NodeError =
    | LinkFailed
    | NothingReceived
    | PingFailed
    | EchoNotStored
    | Invalid
    | EvictionFailed
    | NotStored

  /** One call on the link, with its answer. */
  datatype LinkCall =
    | Opened(window: ContactWindow, ok: bool)
    | Sent(bundle: Bundle, ok: bool)
    | Polled(received: Option<Bundle>)
    | Closed(ok: bool)

  /** The convergence layer adapter: any answer is possible at any time, and is on record. */
  class Link {
    ghost var calls: seq<LinkCall>

    constructor ()
      ensures calls == []
    {
      calls := [];
    }

    method Open(window: ContactWindow) returns (ok: bool)
      modifies this
      ensures calls == old(calls) + [Opened(window, ok)]
    {
      ok := *;
      calls := calls + [Opened(window, ok)];
    }

    method SendBundle(bundle: Bundle) returns (ok: bool)
      modifies this
      ensures calls == old(calls) + [Sent(bundle, ok)]
    {
      ok := *;
      calls := calls + [Sent(bundle, ok)];
    }

    method RecvBundle() returns (received: Option<Bundle>)
      modifies this
      ensures calls == old(calls) + [Polled(received)]
    {
      received := *;
      calls := calls + [Polled(received)];
    }

    method Close() returns (ok: bool)
      modifies this
      ensures calls == old(calls) + [Closed(ok)]
    {
      ok := *;
      calls := calls + [Closed(ok)];
    }
  }

  datatype NodeHealth = NodeHealth(
    uptimeSeconds: nat, storageUsedPercent: Option<real>, bundlesStored: nat, bundlesForwarded: int, bundlesDropped: int)

  /** The store without the given bundles. */
  function WithoutBundles(m: Contents, bs: seq<Bundle>): Contents {
    m - (set b | b in bs :: b.Key())
  }

  function SentEvents(bs: seq<Bundle>, w: ContactWindow, t: int): (r: seq<Event>)
    ensures |r| == |bs| && forall i :: 0 <= i < |bs| ==> r[i] == Left(bs[i], SentIn(w, t))
  {
    seq(|bs|, i requires 0 <= i < |bs| => Left(bs[i], SentIn(w, t)))
  }

  /** What came of one contact window: the link's answer to opening, the queue found, the prefix
      of it that was sent, and the answer to closing. */
  datatype Sends = Sends(window: ContactWindow, linkUp: bool, queue: seq<Bundle>, sent: seq<Bundle>, closed: bool)

  function Accepted(bs: seq<Bundle>): (r: seq<LinkCall>)
    ensures |r| == |bs| && forall i :: 0 <= i < |bs| ==> r[i] == Sent(bs[i], true)
  {
    seq(|bs|, i requires 0 <= i < |bs| => Sent(bs[i], true))
  }

  /** The calls one window makes: sending goes on until the queue is empty or the link refuses. */
  function WindowCalls(s: Sends): seq<LinkCall> {
    if !s.linkUp then [Opened(s.window, false)]
    else
      [Opened(s.window, true)] + Accepted(s.sent)
      + (if |s.sent| < |s.queue| then [Sent(s.queue[|s.sent|], false)] else []) + [Closed(s.closed)]
  }

  /** The calls of all windows, in order. */
  function CallLog(sends: seq<Sends>): seq<LinkCall> {
    if sends == [] then [] else CallLog(sends[..|sends| - 1]) + WindowCalls(sends[|sends| - 1])
  }

  /** The events of the windows' transmissions, in order. */
  function SendLog(sends: seq<Sends>, t: int): seq<Event> {
    if sends == [] then []
    else
      var n := |sends| - 1;
      SendLog(sends[..n], t) + SentEvents(sends[n].sent, sends[n].window, t)
  }

  /** A window served after the given log: the queue is what was stored for its node, by falling
      priority, and a prefix of it was sent, nothing if the link stayed down. */
  ghost predicate Serves(initial: Contents, log: seq<Event>, s: Sends, w: ContactWindow) {
    && s.window == w && s.sent <= s.queue && (!s.linkUp ==> s.sent == [])
    && ListedFor(Replay(initial, log), EndpointID("dtn", w.remoteNode), s.queue)
  }

  /** Every window was served once, in order. */
  ghost predicate SendsAre(initial: Contents, earlier: seq<Event>, sends: seq<Sends>,
                           windows: seq<ContactWindow>, t: int) {
    |sends| == |windows| &&
    forall i :: 0 <= i < |sends| ==> Serves(initial, earlier + SendLog(sends[..i], t), sends[i], windows[i])
  }

  function Completed(sends: seq<Sends>): nat {
    if sends == [] then 0
    else Completed(sends[..|sends| - 1]) + if sends[|sends| - 1].linkUp then 1 else 0
  }

  /** Exactly the expired bundles of m. */
  ghost predicate AreExpired(m: Contents, keys: seq<string>, t: int) {
    (forall k :: k in keys ==> k in m && m[k].IsExpired(t)) && forall k :: k in m && k !in keys ==> !m[k].IsExpired(t)
  }

  /** What a cycle did: its windows, the bundle received if any, the log after the reception,
      and the keys of the bundles that then expired. */
  datatype Trace = Trace(sends: seq<Sends>, received: Option<Bundle>, ok: bool, receivedLog: seq<Event>, gone: seq<string>)

  ghost predicate IsCycle(trace: Trace, initial: Contents, earlier: seq<Event>, log: seq<Event>,
                          windows: seq<ContactWindow>, t: int, clock: int,
                          local: seq<EndpointID>, seqNum: nat, max: int) {
    var sentLog := earlier + SendLog(trace.sends, t);
    var before, after := Replay(initial, sentLog), Replay(initial, trace.receivedLog);
    && SendsAre(initial, earlier, trace.sends, windows, t)
    && sentLog <= trace.receivedLog
    && (trace.received.None? ==> !trace.ok && trace.receivedLog == sentLog)
    && (trace.received.Some? ==>
          Fate(trace.received.value, t, clock, trace.ok, local, seqNum, before, TotalSize(before), after,
               sentLog, trace.receivedLog, max))
    && AreExpired(after, trace.gone, t) && log == trace.receivedLog + Departures(after, trace.gone, Expiry(t))
  }

  /** A step of the cycle at time t: departures are dated t, and sends use an active planned window. */
  ghost predicate InCycle(e: Event, t: int, contacts: seq<ContactWindow>) {
    e.Left? ==> e.cause.at == t && (e.cause.SentIn? ==> e.cause.window in contacts && e.cause.window.IsActive(t))
  }

  class NodeController {
    const agent: BundleProtocolAgent
    const store: BundleStore
    const planner: ContactPlanManager
    const link: Link
    var totalBundlesReceived: int
    var totalBundlesSent: int
    var totalBytesSent: int
    var bundlesForwarded: int
    var contactsCompleted: int
    var contactsMissed: int
    ghost const initial: Contents
    ghost var log: seq<Event>

    constructor (agent: BundleProtocolAgent, store: BundleStore, planner: ContactPlanManager, link: Link)
      requires store.Valid()
      ensures this.agent == agent && this.store == store && this.planner == planner && this.link == link
      ensures Valid() && initial == store.bundles && log == []
    {
      hide Explained, BundleStore.Valid;
      this.agent, this.store, this.planner, this.link := agent, store, planner, link;
      totalBundlesReceived, totalBundlesSent, totalBytesSent, bundlesForwarded := 0, 0, 0, 0;
      contactsCompleted, contactsMissed := 0, 0;
      initial, log := store.bundles, [];
      ExplainedAtStart(store.bundles, store.maxBytes);
    }

    /** The store is the replay of a legal log, and the statistics are its tallies. */
    ghost predicate Valid()
      reads this`log, this`totalBundlesReceived, this`totalBundlesSent, this`totalBytesSent,
            this`bundlesForwarded, store
    {
      Follows(0)
    }

    /** The same while `arriving` bundles have been counted but their fate is not yet known. */
    ghost predicate Follows(arriving: int)
      reads this`log, this`totalBundlesReceived, this`totalBundlesSent, this`totalBytesSent,
            this`bundlesForwarded, store
    {
      && store.Valid()
      && Explained(initial, log, store.maxBytes, store.bundles, arriving,
                   totalBundlesReceived, totalBundlesSent, totalBytesSent, bundlesForwarded)
    }

    // -------------------------------------------------------------- contact windows

    /** One contact window: nothing changes if the link does not open; otherwise the
        priority-sorted queue for the node is sent until the link refuses a bundle, which is kept
        with the rest, and the link is closed. */
    method ExecuteContactWindow(w: ContactWindow, t: int) returns (r: Result<(), NodeError>, ghost served: Sends)
      requires Valid() && w.IsActive(t)
      modifies this`log, this`totalBundlesSent, this`totalBytesSent, this`contactsMissed, this`contactsCompleted
      modifies store, link
      ensures Valid()
      ensures served.window == w && (r.Ok? <==> served.linkUp) && (!served.linkUp ==> served.sent == [])
      ensures ListedFor(old(store.bundles), EndpointID("dtn", w.remoteNode), served.queue)
      ensures served.sent <= served.queue && link.calls == old(link.calls) + WindowCalls(served)
      ensures contactsMissed == old(contactsMissed) + (if served.linkUp then 0 else 1)
      ensures contactsCompleted == old(contactsCompleted) + (if served.linkUp then 1 else 0)
      ensures log == old(log) + SentEvents(served.sent, w, t)
      ensures store.bundles == WithoutBundles(old(store.bundles), served.sent)
    {
      hide Follows, SentEvents, WithoutBundles, ListedFor, BundleStore.Valid;
      var linkUp := link.Open(w);
      var dest := EndpointID("dtn", w.remoteNode);
      var bundles := ListQueue(dest);
      SentNone(store.bundles, bundles, w, t);
      assert log + [] == log && bundles[..0] == [];
      if !linkUp {
        contactsMissed := contactsMissed + 1;
        return Err(LinkFailed), Sends(w, false, bundles, [], false);
      }
      var sent, refused := 0, false;
      while sent < |bundles|
        invariant sent <= |bundles| && Valid() && !refused
        invariant contactsMissed == old(contactsMissed) && contactsCompleted == old(contactsCompleted)
        invariant log == old(log) + SentEvents(bundles[..sent], w, t)
        invariant store.bundles == WithoutBundles(old(store.bundles), bundles[..sent])
        invariant link.calls == old(link.calls) + [Opened(w, true)] + Accepted(bundles[..sent])
      {
        var bundle := bundles[sent];
        if t >= w.endTime {
          break;
        }
        var ok := link.SendBundle(bundle);
        if !ok {
          refused := true;
          break;
        }
        NextIsStored(old(store.bundles), dest, bundles, sent);
        RecordSend(bundle, w, t);
        SentOneMore(old(store.bundles), bundles, sent, w, t);
        AcceptedOneMore(bundles, sent);
        sent := sent + 1;
      }
      contactsCompleted := contactsCompleted + 1;
      var closed := link.Close();
      served := Sends(w, true, bundles, bundles[..sent], closed);
      AreWindowCalls(old(link.calls), served, link.calls, refused);
      r := Ok(());
    }

    method ListQueue(dest: EndpointID) returns (bundles: seq<Bundle>)
      requires Valid()
      ensures ListedFor(store.bundles, dest, bundles)
    {
      bundles := store.ListByDestination(dest);
    }

    /** After a successful transmission: drop the bundle from the store and count it. */
    method RecordSend(bundle: Bundle, w: ContactWindow, t: int)
      requires Valid() && w.IsActive(t) && bundle.destination == EndpointID("dtn", w.remoteNode)
      requires bundle.Key() in store.bundles && store.bundles[bundle.Key()] == bundle
      modifies this`log, this`totalBundlesSent, this`totalBytesSent, store
      ensures Valid() && store.bundles == old(store.bundles) - {bundle.Key()}
      ensures log == old(log) + [Left(bundle, SentIn(w, t))]
    {
      hide Legal, Replay, Tally, WellKeyed;
      ghost var e := Left(bundle, SentIn(w, t));
      ExtendLog(initial, log, store.maxBytes, e);
      var deleted := store.Delete(bundle.id);
      if deleted.Ok? {
        log := log + [e];
        totalBundlesSent := totalBundlesSent + 1;
        totalBytesSent := totalBytesSent + bundle.Size();
      }
    }

    // --------------------------------------------------------------------- reception

    /** Validation, local delivery or storage; the caller has already counted the bundle. */
    method ProcessIncomingBundle(b: Bundle, t: int) returns (r: Result<(), NodeError>)
      requires Follows(1)
      modifies this`log, this`totalBundlesReceived, this`bundlesForwarded, store
      ensures Valid() && old(log) <= log
      ensures forall i :: |old(log)| <= i < |log| ==> InCycle(log[i], t, [])
      ensures !IsValidBundle(b, t) ==> r == Err(Invalid) && log == old(log) + [Refused(b)]
      ensures IsValidBundle(b, t) && b.destination in agent.localEndpoints ==>
                r == Ok(()) && log == old(log) + [Delivered(b)]
      ensures IsValidBundle(b, t) && b.destination !in agent.localEndpoints ==>
                Admission(b, t, r.Ok?, old(store.bundles), old(store.usedBytes), store.bundles,
                          old(log), log, store.maxBytes)
    {
      hide Legal, Replay, Tally, WellKeyed, BundleStore.Valid;
      var valid := agent.ValidateBundle(b, t);
      if valid.Err? {
        Refuse(b);
        return Err(Invalid);
      }
      var local := agent.IsLocalEndpoint(b.destination);
      if local {
        bundlesForwarded := bundlesForwarded + 1;
        ExtendLog(initial, log, store.maxBytes, Delivered(b));
        log := log + [Delivered(b)];
        return Ok(());
      }
      r := StoreForForwarding(b, t);
    }

    /** Storage with eviction. The bundle is stored exactly when its ID is new and it fits or
        the store holds at least its size. Nothing is evicted unless it does not fit, and then no
        more than needed; the second attempt to store never fails; and when room cannot be made
        the store has been emptied. */
    method StoreForForwarding(b: Bundle, t: int) returns (r: Result<(), NodeError>)
      requires Follows(1)
      modifies this`log, this`totalBundlesReceived, store
      ensures Valid() && old(log) <= log
      ensures forall i :: |old(log)| <= i < |log| ==> InCycle(log[i], t, [])
      ensures Admission(b, t, r.Ok?, old(store.bundles), old(store.usedBytes), store.bundles,
                        old(log), log, store.maxBytes)
    {
      hide Follows, TotalSize, Evicted, Enough, Departures, Bundle.Size, Bundle.Key;
      var stored := StoreAndLog(b, None);
      if stored.Ok? {
        return Ok(());
      }
      if !stored.error.StoreFull? {
        Refuse(b);
        return Err(NotStored);
      }
      ghost var before, used, earlier := store.bundles, store.usedBytes, log;
      var ok, victims := EvictAndLog(b, t);
      ghost var left := store.bundles;
      if !ok {
        Refuse(b);
        assert MakesRoom(b, t, false, before, used, left, store.bundles, earlier, log, victims);
        return Err(EvictionFailed);
      }
      stored := StoreAndLog(b, None);
      assert MakesRoom(b, t, true, before, used, left, store.bundles, earlier, log, victims);
      assert stored.Ok?;   // the error branch after a successful eviction cannot be taken
      r := Ok(());
    }

    /** Takes a bundle back off the received count. */
    method Refuse(b: Bundle)
      requires Follows(1)
      modifies this`log, this`totalBundlesReceived
      ensures Valid() && log == old(log) + [Refused(b)]
    {
      hide Legal, Replay, Tally, WellKeyed, BundleStore.Valid;
      totalBundlesReceived := totalBundlesReceived - 1;
      ExtendLog(initial, log, store.maxBytes, Refused(b));
      log := log + [Refused(b)];
    }

    method StoreAndLog(b: Bundle, ghost request: Option<Bundle>) returns (r: Result<(), StoreError>)
      requires Follows(1)
      modifies this`log, store
      ensures Follows(if r.Ok? then 0 else 1)
      ensures r == if b.Key() in old(store.bundles) then Err(AlreadyExists)
                   else if old(store.usedBytes) + b.Size() > store.maxBytes
                   then Err(StoreFull(b.Size(), store.maxBytes - old(store.usedBytes), store.maxBytes))
                   else Ok(())
      ensures store.bundles == if r.Ok? then old(store.bundles)[b.Key() := b] else old(store.bundles)
      ensures log == if r.Ok? then old(log) + [Ledger.Stored(b, request)] else old(log)
      ensures r.Err? ==> store.usedBytes == old(store.usedBytes)
    {
      hide Legal, Replay, Tally, WellKeyed, TotalSize;
      r := store.Store(b);
      if r.Ok? {
        ExtendLog(initial, log, store.maxBytes, Ledger.Stored(b, request));
        log := log + [Ledger.Stored(b, request)];
      }
    }

    method EvictAndLog(b: Bundle, t: int) returns (ok: bool, ghost victims: seq<string>)
      requires Follows(1)
      modifies this`log, store
      ensures Follows(1) && old(log) <= log
      ensures forall i :: |old(log)| <= i < |log| ==> InCycle(log[i], t, [])
      ensures ok <==> old(store.usedBytes) >= b.Size()
      ensures ok ==> store.usedBytes + b.Size() <= old(store.usedBytes) <= store.maxBytes
      ensures !ok ==> store.bundles == map[]
      ensures store.bundles.Keys <= old(store.bundles).Keys
      ensures Evicted(old(store.bundles), store.bundles, victims, t)
      ensures ok ==> Enough(old(store.bundles), store.bundles, victims,
                            TotalSize(old(store.bundles)) - TotalSize(store.bundles), b.Size(), t)
      ensures (forall k :: k in victims ==> k in old(store.bundles))
              && log == old(log) + Departures(old(store.bundles), victims, Space(b, t))
    {
      hide Legal, Replay, Tally, WellKeyed, Evicted, Enough, EvictionOrder, Departures, TotalSize, InCycle;
      ghost var before := store.bundles;
      var freed;
      ok, freed, victims := store.EvictToFreeSpace(b.Size(), t);
      EvictionShrinksTo(before, store.bundles, victims, t);
      ghost var cause := Space(b, t);
      LogDepartures(initial, log, store.maxBytes, before, store.bundles, victims, t, cause);
      log := log + Departures(before, victims, cause);
    }

    /** One reception attempt; `clock` is the agent's own clock, which stamps echoes. What the
        link handed over has exactly the fate its type, validity, destination and the room decide. */
    method ReceiveIncomingBundles(t: int, clock: int)
      returns (r: Result<(), NodeError>, ghost received: Option<Bundle>)
      requires Valid()
      modifies this, store, agent, link
      ensures Valid() && old(log) <= log
      ensures forall i :: |old(log)| <= i < |log| ==> InCycle(log[i], t, [])
      ensures contactsMissed == old(contactsMissed) && contactsCompleted == old(contactsCompleted)
      ensures link.calls == old(link.calls) + [Polled(received)]
      ensures received.None? ==> r.Err? && log == old(log)
      ensures received.Some? ==>
                Fate(received.value, t, clock, r.Ok?, agent.localEndpoints, agent.sequenceNum, old(store.bundles),
                     old(store.usedBytes), store.bundles, old(log), log, store.maxBytes)
    {
      hide Follows, Admission, IsValidBundle;
      received := None;
      var incoming := link.RecvBundle();
      received := incoming;
      if incoming.None? {
        return Err(NothingReceived), received;
      }
      var b := incoming.value;
      Arrive();
      match b.bundleType
      case PingRequest =>
        var echo := agent.HandlePing(b, clock);
        if echo.Err? {
          Settle(EchoLost(b));
          return Err(PingFailed), received;
        }
        assert echo.value == EchoOf(b, clock, agent.localEndpoints, agent.sequenceNum);
        var stored := StoreAndLog(echo.value, Some(b));
        if stored.Err? {
          Settle(EchoLost(b));
          return Err(EchoNotStored), received;
        }
        r := Ok(());
      case DataBundle =>
        r := ProcessIncomingBundle(b, t);
      case PingResponse =>
        Settle(Absorbed(b));
        r := Ok(());
      case OtherType(_) =>
        Settle(Absorbed(b));
        r := Ok(());
    }

    method Arrive()
      requires Valid()
      modifies this`totalBundlesReceived
      ensures Follows(1)
    {
      hide Legal, Replay, Tally, BundleStore.Valid;
      totalBundlesReceived := totalBundlesReceived + 1;
    }

    /** The fate of a counted bundle that touches neither the store nor the statistics. */
    ghost method Settle(e: Event)
      requires Follows(1) && (e.EchoLost? || e.Absorbed?)
      modifies this`log
      ensures Valid() && log == old(log) + [e]
    {
      hide Legal, Replay, Tally, BundleStore.Valid;
      ExtendLog(initial, log, store.maxBytes, e);
      log := log + [e];
    }

    // --------------------------------------------------------------------- the cycle

    lemma StoreIsReplay()
      requires Valid()
      ensures store.bundles == Replay(initial, log) && store.usedBytes == TotalSize(store.bundles)
    {
    }

    /** One operation cycle at time t. Whatever the link does, the node still follows a legal
        log; each window planned and active at t sends a prefix of its queue, one bundle at most
        is received and meets its fate, and then exactly the expired bundles go. */
    method RunCycle(t: int, clock: int) returns (ghost trace: Trace)
      requires Valid()
      modifies this, store, agent, link
      ensures Valid() && old(log) <= log
      ensures link.calls == old(link.calls) + CallLog(trace.sends) + [Polled(trace.received)]
      ensures forall i :: |old(log)| <= i < |log| ==> InCycle(log[i], t, planner.Contacts())
      ensures NoneExpired(store.bundles, t)
      ensures forall k :: k in store.bundles && IsInt64(store.bundles[k].createdAt + store.bundles[k].lifetime) ==>
                t < store.bundles[k].createdAt + store.bundles[k].lifetime
      ensures IsCycle(trace, initial, old(log), log, ActiveAt(planner.Contacts(), t), t, clock,
                      agent.localEndpoints, agent.sequenceNum, store.maxBytes)
      ensures contactsCompleted == old(contactsCompleted) + Completed(trace.sends)
      ensures contactsMissed == old(contactsMissed) + |trace.sends| - Completed(trace.sends)
    {
      hide Follows, Fate, SendsAre, SendLog, CallLog, Replay, Departures, TotalSize, Completed, AreExpired, InCycle;
      var activeContacts := planner.GetActiveContacts(t);
      var sends := ServeWindows(activeContacts, t);
      ghost var sentLog := log;
      StoreIsReplay();
      var r, received := ReceiveIncomingBundles(t, clock);
      ghost var receivedLog := log;
      StoreIsReplay();
      var gone := ExpireOld(t);
      NoneExpiredMeans(store.bundles, t);
      CycleEvents(old(log), sentLog, receivedLog, log, ActiveAt(planner.Contacts(), t), planner.Contacts(), t);
      trace := Trace(sends, received, r.Ok?, receivedLog, gone);
    }

    /** Steps 1 and 2 of the cycle: the active windows, one after the other. */
    method ServeWindows(windows: seq<ContactWindow>, t: int) returns (ghost sends: seq<Sends>)
      requires Valid() && forall w :: w in windows ==> w.IsActive(t)
      modifies this`log, this`totalBundlesSent, this`totalBytesSent, this`contactsMissed, this`contactsCompleted
      modifies store, link
      ensures Valid() && log == old(log) + SendLog(sends, t)
      ensures link.calls == old(link.calls) + CallLog(sends)
      ensures forall j :: |old(log)| <= j < |log| ==> InCycle(log[j], t, windows)
      ensures SendsAre(initial, old(log), sends, windows, t)
      ensures contactsCompleted == old(contactsCompleted) + Completed(sends)
      ensures contactsMissed == old(contactsMissed) + |sends| - Completed(sends)
    {
      hide Follows, ListedFor, WithoutBundles, SendsAre, SendLog, CallLog, WindowCalls, Replay, TotalSize, Completed;
      sends := [];
      NoSends(initial, log, t);
      assert windows[..0] == [];
      for i := 0 to |windows|
        invariant Valid() && log == old(log) + SendLog(sends, t) && |sends| == i
        invariant link.calls == old(link.calls) + CallLog(sends)
        invariant forall j :: |old(log)| <= j < |log| ==> InCycle(log[j], t, windows)
        invariant SendsAre(initial, old(log), sends, windows[..i], t)
        invariant contactsCompleted == old(contactsCompleted) + Completed(sends)
        invariant contactsMissed == old(contactsMissed) + i - Completed(sends)
      {
        var w := windows[i];
        ghost var earlier := log;
        StoreIsReplay();
        var _, served := ExecuteContactWindow(w, t);
        assert forall j :: |earlier| <= j < |log| ==> log[j] == SentEvents(served.sent, w, t)[j - |earlier|];
        SendsSnoc(initial, old(log), sends, windows, i, served, t);
        sends := sends + [served];
      }
      assert windows[..|windows|] == windows;
    }

    /** Step 4 of the cycle: expired bundles go, and come off the received count. */
    method ExpireOld(t: int) returns (ghost gone: seq<string>)
      requires Valid()
      modifies this, store
      ensures Valid() && old(log) <= log && NoneExpired(store.bundles, t)
      ensures forall i :: |old(log)| <= i < |log| ==> InCycle(log[i], t, [])
      ensures contactsMissed == old(contactsMissed) && contactsCompleted == old(contactsCompleted)
      ensures agent.sequenceNum == old(agent.sequenceNum)
      ensures AreExpired(old(store.bundles), gone, t) && log == old(log) + Departures(old(store.bundles), gone, Expiry(t))
    {
      hide Legal, Replay, Tally, WellKeyed, Evicted, EvictionOrder, Departures, TotalSize, InCycle, Bundle.IsExpired;
      hide AreExpired;
      ghost var before := store.bundles;
      var evicted;
      evicted, gone := store.EvictExpired(t);
      LeftIsUnexpired(before, store.bundles, gone, t);
      EvictionShrinksTo(before, store.bundles, gone, t);
      LogDepartures(initial, log, store.maxBytes, before, store.bundles, gone, t, Expiry(t));
      log := log + Departures(before, gone, Expiry(t));
      if evicted > 0 {
        totalBundlesReceived := totalBundlesReceived - evicted;
      }
    }

    /** The health report, `elapsed` nanoseconds after the start. Its dropped figure is received
        minus forwarded minus stored, which over any history is everything sent, evicted, absorbed
        or left unanswered, less what the store held at the start. The storage percentage stays
        within 0 and 100, and is no number for a store of no capacity. */
    method HealthCheck(elapsed: nat) returns (health: NodeHealth)
      requires Valid()
      ensures health.uptimeSeconds == elapsed / 1_000_000_000
      ensures health.storageUsedPercent.None? <==> store.maxBytes == 0
      ensures store.maxBytes != 0 ==>
                var percent := health.storageUsedPercent.value;
                0.0 <= percent <= 100.0 && percent * store.maxBytes as real == 100.0 * TotalSize(store.bundles) as real
      ensures health.bundlesStored == |store.bundles|
      ensures health.bundlesForwarded == Tally(log).delivered
      ensures var c := Tally(log);
              health.bundlesDropped == c.sent + c.evicted + c.absorbed + c.echoLost - |initial|
    {
      hide Legal, Replay, Tally, WellKeyed, Counts.Received, TotalSize;
      var percent := None;
      NoSize();
      if store.maxBytes != 0 {
        var share := store.usedBytes as real / store.maxBytes as real * 100.0;
        ShareIsPercentage(store.usedBytes, store.maxBytes, share);
        percent := Some(share);
      }
      health := NodeHealth(elapsed / 1_000_000_000, percent, |store.bundles|, bundlesForwarded,
                           totalBundlesReceived - bundlesForwarded - |store.bundles|);
      DroppedMeans(initial, log, store.maxBytes);
    }
  }

  lemma NoSize()
    ensures TotalSize(map[]) == 0
  {
  }

  lemma ShareIsPercentage(used: int, max: int, share: real)
    requires max != 0 && used >= 0 && (used == 0 || used <= max)
    requires share == used as real / max as real * 100.0
    ensures 0.0 <= share <= 100.0 && share * max as real == 100.0 * used as real
  {
    var u, m := used as real, max as real;
    DivideMultiply(u, m);
    if used > 0 {
      AtMostOne(u, m);
    }
  }

  lemma DivideMultiply(x: real, m: real)
    requires m != 0.0
    ensures x / m * m == x
  {
  }

  lemma AtMostOne(u: real, m: real)
    requires 0.0 < u <= m
    ensures 0.0 < u / m <= 1.0
  {
    var rest := (m - u) / m;
    DivideMultiply(m - u, m);
    DivideMultiply(u, m);
    var sum := rest + u / m;
    assert sum * m == rest * m + u / m * m;
    assert sum == sum * m / m;
  }

  /** The echo of a ping: back to its sender, under a fresh identity of the first local endpoint. */
  function EchoOf(ping: Bundle, clock: int, local: seq<EndpointID>, seqNum: nat): Bundle
    requires local != []
  {
    Bundle(BundleID(local[0], clock, seqNum), ping.id.source, PONG, PRIORITY_EXPEDITED, 300, clock, PingResponse)
  }

  /** An echo says PONG, ranks above normal and below critical bundles, and is valid for five
      minutes, unless the ping named no source to answer. */
  lemma EchoMeans(ping: Bundle, clock: int, local: seq<EndpointID>, seqNum: nat, t: int)
    requires local != [] && 0 <= clock < 0x4000_0000_0000_0000
    ensures var echo := EchoOf(ping, clock, local, seqNum);
            && echo.payload == ['P' as int, 'O' as int, 'N' as int, 'G' as int] && 1 < echo.priority < 3
            && (IsValidBundle(echo, t) <==>
                ping.id.source.scheme != "" && ping.id.source.ssp != "" && clock <= t < clock + 300)
  {
  }

  /** A ping is logged as the storage of its echo, which happens exactly when the agent has an
      endpoint to answer from and the echo is new and fits without eviction. */
  ghost predicate PingFate(b: Bundle, clock: int, ok: bool, local: seq<EndpointID>, seqNum: nat,
                           before: Contents, used: int, earlier: seq<Event>, log: seq<Event>, max: int) {
    if local == [] then !ok && log == earlier + [EchoLost(b)]
    else
      var echo := EchoOf(b, clock, local, seqNum);
      && (ok <==> echo.Key() !in before && used + echo.Size() <= max)
      && log == earlier + [if ok then Ledger.Stored(echo, Some(b)) else EchoLost(b)]
  }

  ghost predicate DataFate(b: Bundle, t: int, ok: bool, local: seq<EndpointID>, before: Contents, used: int,
                           after: Contents, earlier: seq<Event>, log: seq<Event>, max: int) {
    if !IsValidBundle(b, t) then !ok && log == earlier + [Refused(b)]
    else if b.destination in local then ok && log == earlier + [Delivered(b)]
    else Admission(b, t, ok, before, used, after, earlier, log, max)
  }

  ghost predicate Fate(b: Bundle, t: int, clock: int, ok: bool, local: seq<EndpointID>, seqNum: nat,
                       before: Contents, used: int, after: Contents,
                       earlier: seq<Event>, log: seq<Event>, max: int) {
    match b.bundleType
    case PingRequest => PingFate(b, clock, ok, local, seqNum, before, used, earlier, log, max)
    case DataBundle => DataFate(b, t, ok, local, before, used, after, earlier, log, max)
    case _ => ok && log == earlier + [Absorbed(b)]
  }

  /** The exact fate of a valid bundle for a remote endpoint: a known ID is refused, a new one
      that fits is stored, and nothing else happens; otherwise room is made. */
  ghost predicate Admission(b: Bundle, t: int, stored: bool, before: Contents, used: int, after: Contents,
                            earlier: seq<Event>, log: seq<Event>, max: int) {
    if b.Key() in before then !stored && after == before && log == earlier + [Refused(b)]
    else if used + b.Size() <= max then
      stored && after == before[b.Key() := b] && log == earlier + [Ledger.Stored(b, None)]
    else exists left, victims :: MakesRoom(b, t, stored, before, used, left, after, earlier, log, victims)
  }

  /** The victims go by the eviction policy. If the store held enough bytes the last of them was
      needed and b is stored in the room made; otherwise all are gone and b is refused. */
  ghost predicate MakesRoom(b: Bundle, t: int, stored: bool, before: Contents, used: int, left: Contents,
                            after: Contents, earlier: seq<Event>, log: seq<Event>, victims: seq<string>) {
    && Evicted(before, left, victims, t) && (forall k :: k in victims ==> k in before)
    && log == earlier + Departures(before, victims, Space(b, t))
              + [if stored then Ledger.Stored(b, None) else Refused(b)]
    && (stored <==> used >= b.Size())
    && (stored ==> Enough(before, left, victims, TotalSize(before) - TotalSize(left), b.Size(), t)
                   && after == left[b.Key() := b])
    && (!stored ==> left == map[] && after == map[])
  }

  lemma EvictionShrinksTo(before: Contents, after: Contents, victims: seq<string>, t: int)
    requires Evicted(before, after, victims, t)
    ensures (forall k :: k in victims ==> k in before) && after.Keys <= before.Keys
  {
    EvictionShrinks(before, victims, t);
  }

  /** The events of the three phases of a cycle are all events of that cycle. */
  lemma CycleEvents(log0: seq<Event>, log1: seq<Event>, log2: seq<Event>, log3: seq<Event>,
                    windows: seq<ContactWindow>, contacts: seq<ContactWindow>, t: int)
    requires log0 <= log1 <= log2 <= log3 && forall w :: w in windows ==> w in contacts
    requires forall i :: |log0| <= i < |log1| ==> InCycle(log1[i], t, windows)
    requires forall i :: |log1| <= i < |log2| ==> InCycle(log2[i], t, [])
    requires forall i :: |log2| <= i < |log3| ==> InCycle(log3[i], t, [])
    ensures log0 <= log3 && forall i :: |log0| <= i < |log3| ==> InCycle(log3[i], t, contacts)
  {
    forall i | |log0| <= i < |log3| ensures InCycle(log3[i], t, contacts) {
      if i < |log1| {
        assert log3[i] == log1[i];
      } else if i < |log2| {
        assert log3[i] == log2[i];
      }
    }
  }

  /** The bundles a cycle expires are those whose lifetime from creation has passed. */
  lemma GoneMeans(m: Contents, gone: seq<string>, t: int)
    requires AreExpired(m, gone, t)
    ensures forall k :: k in m && IsInt64(m[k].createdAt + m[k].lifetime) ==>
              (k in gone <==> m[k].createdAt + m[k].lifetime <= t)
  {
  }

  lemma LeftIsUnexpired(before: Contents, after: Contents, gone: seq<string>, t: int)
    requires Evicted(before, after, gone, t) && NoneExpired(after, t)
    requires forall k :: k in gone ==> k in before && before[k].IsExpired(t)
    ensures AreExpired(before, gone, t)
  {
    hide Bundle.IsExpired;
    forall k | k in before && k !in gone ensures !before[k].IsExpired(t) {
      assert k in after;
    }
  }

  lemma NoSends(initial: Contents, log: seq<Event>, t: int)
    ensures SendLog([], t) == [] && log + SendLog([], t) == log && Completed([]) == 0
    ensures SendsAre(initial, log, [], [], t) && CallLog([]) == []
  {
  }

  lemma AcceptedOneMore(bs: seq<Bundle>, i: nat)
    requires i < |bs|
    ensures Accepted(bs[..i + 1]) == Accepted(bs[..i]) + [Sent(bs[i], true)]
  {
  }

  lemma AreWindowCalls(before: seq<LinkCall>, s: Sends, calls: seq<LinkCall>, refused: bool)
    requires s.linkUp && s.sent <= s.queue && (refused <==> |s.sent| < |s.queue|)
    requires calls == before + [Opened(s.window, true)] + Accepted(s.sent)
                      + (if refused then [Sent(s.queue[|s.sent|], false)] else []) + [Closed(s.closed)]
    ensures calls == before + WindowCalls(s)
  {
    hide Accepted;
  }

  lemma SendsSnoc(initial: Contents, earlier: seq<Event>, sends: seq<Sends>, windows: seq<ContactWindow>,
                  i: nat, s: Sends, t: int)
    requires i < |windows| && SendsAre(initial, earlier, sends, windows[..i], t)
    requires Serves(initial, earlier + SendLog(sends, t), s, windows[i])
    ensures SendsAre(initial, earlier, sends + [s], windows[..i + 1], t)
    ensures earlier + SendLog(sends + [s], t) == earlier + SendLog(sends, t) + SentEvents(s.sent, s.window, t)
    ensures CallLog(sends + [s]) == CallLog(sends) + WindowCalls(s)
    ensures Completed(sends + [s]) == Completed(sends) + if s.linkUp then 1 else 0
  {
    hide Serves, SentEvents, WindowCalls;
    var all := sends + [s];
    assert all[..i] == sends;
    forall j | 0 <= j < i + 1
      ensures Serves(initial, earlier + SendLog(all[..j], t), all[j], windows[..i + 1][j])
    {
      if j < i {
        assert all[..j] == sends[..j] && windows[..i + 1][j] == windows[..i][j];
      }
    }
  }

  /** The departures the store has just made, entered into the log. */
  lemma LogDepartures(initial: Contents, log: seq<Event>, max: int, before: Contents, after: Contents,
                      victims: seq<string>, t: int, cause: Cause)
    requires WellKeyed(before) && Legal(initial, log, max) && before == Replay(initial, log)
    requires Evicted(before, after, victims, t) && cause.at == t
    requires forall k :: k in victims ==> k in before
    requires cause.Space? || (cause.Expiry? && forall k :: k in victims ==> before[k].IsExpired(t))
    ensures var events := Departures(before, victims, cause);
            && Legal(initial, log + events, max) && Replay(initial, log + events) == after
            && (forall e :: e in events ==> InCycle(e, t, []))
            && Tally(log + events).Received()
               == Tally(log).Received() - (if cause.Expiry? then |victims| else 0)
            && Tally(log + events).sent == Tally(log).sent
            && Tally(log + events).bytesSent == Tally(log).bytesSent
            && Tally(log + events).delivered == Tally(log).delivered
  {
    hide Legal, Tally, EvictionOrder, WellKeyed;
    ExtendByDepartures(initial, log, max, before, victims, t, cause);
    TallyDepartures(log, before, victims, cause);
  }

  lemma NextIsStored(m: Contents, dest: EndpointID, list: seq<Bundle>, i: nat)
    requires ListedFor(m, dest, list) && i < |list|
    ensures list[i].destination == dest
    ensures list[i].Key() in WithoutBundles(m, list[..i]) && WithoutBundles(m, list[..i])[list[i].Key()] == list[i]
  {
    hide Bundle.Key, SortedBy;
    assert list[i] in list;
    forall j | 0 <= j < i ensures list[j].Key() != list[i].Key() {
      assert list[j] in list;
    }
  }

  lemma SentNone(m: Contents, list: seq<Bundle>, w: ContactWindow, t: int)
    ensures SentEvents(list[..0], w, t) == []
    ensures WithoutBundles(m, list[..0]) == m
  {
  }

  lemma SentOneMore(m: Contents, list: seq<Bundle>, i: nat, w: ContactWindow, t: int)
    requires i < |list|
    ensures SentEvents(list[..i + 1], w, t) == SentEvents(list[..i], w, t) + [Left(list[i], SentIn(w, t))]
    ensures WithoutBundles(m, list[..i + 1]) == WithoutBundles(m, list[..i]) - {list[i].Key()}
  {
    assert list[..i + 1] == list[..i] + [list[i]];
  }
}
