/** The bounded drop-oldest receive queue of kiss/tnc.go, as a state machine: one producer
    (the receive loop) and any number of consumers (Receive calls), interleaved arbitrarily. */
module RxQueue {
  import opened Prelude
  import opened Kiss
  import opened KissStream

  const CAPACITY := 16

  /** Where the receive loop stands with the frame in its hand. */
  datatype Producer =
    | Idle
    | Dropping(frame: Bytes)   // the first select found the channel full
    | Sending(frame: Bytes)    // about to do the blocking send

  /** How a frame left the channel. */
  datatype Departure = Departure(frame: Bytes, toConsumer: bool)

  datatype State = State(pending: seq<Bytes>, producer: Producer, queue: seq<Bytes>, log: seq<Departure>)

  datatype Actor = ReceiveLoop | Consumer

  function Initial(decoded: seq<Bytes>): State {
    State(decoded, Idle, [], [])
  }

  function Take(s: State, toConsumer: bool): State
    requires s.queue != []
  {
    s.(queue := s.queue[1..], log := s.log + [Departure(s.queue[0], toConsumer)])
  }

  /** One atomic step of an actor, None where it would block or has nothing to do. */
  function Fire(s: State, actor: Actor): Option<State> {
    match actor
    case Consumer =>
      if s.queue == [] then None else Some(Take(s, true))
    case ReceiveLoop =>
      match s.producer
      case Idle =>
        if s.pending == [] then None
        else
          var after := s.(pending := s.pending[1..]);
          if |s.queue| < CAPACITY then Some(after.(queue := s.queue + [s.pending[0]]))
          else Some(after.(producer := Dropping(s.pending[0])))
      case Dropping(frame) =>
        var after := s.(producer := Sending(frame));
        Some(if s.queue == [] then after else Take(after, false))
      case Sending(frame) =>
        if |s.queue| < CAPACITY then Some(s.(producer := Idle, queue := s.queue + [frame]))
        else None
  }

  /** The state after a schedule; an actor that cannot move is passed over. */
  function Exec(s: State, schedule: seq<Actor>): State
    decreases |schedule|
  {
    if schedule == [] then s
    else
      var before := Exec(s, schedule[..|schedule| - 1]);
      match Fire(before, schedule[|schedule| - 1])
      case None => before
      case Some(after) => after
  }

  function InHand(p: Producer): seq<Bytes> {
    if p.Idle? then [] else [p.frame]
  }

  function Departed(log: seq<Departure>): seq<Bytes> {
    if log == [] then [] else Departed(log[..|log| - 1]) + [log[|log| - 1].frame]
  }

  /** What the consumers have seen, in order. */
  function Seen(log: seq<Departure>): seq<Bytes> {
    if log == [] then []
    else
      var last := log[|log| - 1];
      Seen(log[..|log| - 1]) + if last.toConsumer then [last.frame] else []
  }

  ghost predicate Subsequence<T>(a: seq<T>, b: seq<T>)
    decreases |b|
  {
    if b == [] then a == []
    else
      var m, n := |a| - 1, |b| - 1;
      (a != [] && a[m] == b[n] && Subsequence(a[..m], b[..n])) || Subsequence(a, b[..n])
  }

  /** Every decoded frame is gone, queued, in hand or pending, in that order. */
  ghost predicate Inv(s: State, decoded: seq<Bytes>) {
    && decoded == Departed(s.log) + s.queue + InHand(s.producer) + s.pending
    && |s.queue| <= CAPACITY
    && (s.producer.Sending? ==> |s.queue| < CAPACITY)
    && Subsequence(Seen(s.log), Departed(s.log))
  }

  lemma TakeKeepsInv(s: State, decoded: seq<Bytes>, toConsumer: bool)
    requires s.queue != [] && Inv(s, decoded)
    ensures Inv(Take(s, toConsumer), decoded)
  {
    var t := Take(s, toConsumer);
    assert t.log[..|s.log|] == s.log;
    var gone, seen := Departed(t.log), Seen(t.log);
    assert gone == Departed(s.log) + [s.queue[0]] && gone[..|gone| - 1] == Departed(s.log);
    assert gone + t.queue == Departed(s.log) + s.queue;
    if toConsumer {
      assert seen[..|seen| - 1] == Seen(s.log);
    } else {
      assert seen == Seen(s.log);
    }
  }

  lemma FireKeepsInv(s: State, decoded: seq<Bytes>, actor: Actor)
    requires Inv(s, decoded) && Fire(s, actor).Some?
    ensures Inv(Fire(s, actor).value, decoded)
  {
    match actor
    case Consumer => TakeKeepsInv(s, decoded, true);
    case ReceiveLoop =>
      match s.producer
      case Idle =>
        assert s.pending == [s.pending[0]] + s.pending[1..];
      case Dropping(frame) =>
        if s.queue != [] {
          TakeKeepsInv(s, decoded, false);
          assert Take(s.(producer := Sending(frame)), false) == Take(s, false).(producer := Sending(frame));
        }
      case Sending(frame) =>
  }

  lemma {:induction false} Reachable(decoded: seq<Bytes>, schedule: seq<Actor>)
    ensures Inv(Exec(Initial(decoded), schedule), decoded)
    decreases |schedule|
  {
    if schedule == [] {
      assert decoded == [] + [] + [] + decoded;
    } else {
      Reachable(decoded, schedule[..|schedule| - 1]);
      var before := Exec(Initial(decoded), schedule[..|schedule| - 1]);
      if Fire(before, schedule[|schedule| - 1]).Some? {
        FireKeepsInv(before, decoded, schedule[|schedule| - 1]);
      }
    }
  }

  /** Under every interleaving the receive loop can always move while frames remain, so its
      unconditional send never blocks. */
  lemma ProducerNeverBlocks(decoded: seq<Bytes>, schedule: seq<Actor>)
    ensures var s := Exec(Initial(decoded), schedule);
            Fire(s, ReceiveLoop).None? <==> s.producer.Idle? && s.pending == []
  {
    Reachable(decoded, schedule);
  }

  /** Under every interleaving consumers see a subsequence of the decoded frames, and the
      channel is a contiguous run of at most 16 of them, ending with the one sent last. */
  lemma QueueIsRecentRun(decoded: seq<Bytes>, schedule: seq<Actor>)
    ensures var s := Exec(Initial(decoded), schedule);
            var sent := |decoded| - |s.pending| - |InHand(s.producer)|;
            && |s.queue| <= 16 && |s.queue| <= sent <= |decoded|
            && s.queue == decoded[sent - |s.queue|..sent]
            && Subsequence(Seen(s.log), decoded[..sent - |s.queue|])
  {
    Reachable(decoded, schedule);
    var s := Exec(Initial(decoded), schedule);
    var gone := Departed(s.log);
    var sent := |gone| + |s.queue|;
    assert decoded[|gone|..sent] == s.queue && decoded[..|gone|] == gone;
  }

  /** With nobody receiving, the channel ends up holding the newest frames. */
  lemma {:induction false} UnreadKeepsNewest(decoded: seq<Bytes>, schedule: seq<Actor>)
    requires forall i :: 0 <= i < |schedule| ==> schedule[i] == ReceiveLoop
    ensures var s := Exec(Initial(decoded), schedule);
            var gone := |Departed(s.log)|;
            && Seen(s.log) == []
            && (gone > 0 ==> |s.queue| >= 15)
            && (s.producer.Idle? && gone > 0 ==> |s.queue| == 16)
            && (s.producer.Dropping? ==> |s.queue| == 16)
    decreases |schedule|
  {
    if schedule != [] {
      var earlier := schedule[..|schedule| - 1];
      UnreadKeepsNewest(decoded, earlier);
      Reachable(decoded, earlier);
      var s := Exec(Initial(decoded), earlier);
      assert schedule[|schedule| - 1] == ReceiveLoop;
      if s.producer.Dropping? && s.queue != [] {
        var t := Fire(s, ReceiveLoop).value;
        assert t.log[..|s.log|] == s.log;
      }
    }
  }

  // ---------------------------------------------------------------- needless drops

  /** How many consumer steps the schedule ends with. */
  function Trailing(schedule: seq<Actor>): nat {
    if schedule == [] || schedule[|schedule| - 1] == ReceiveLoop then 0
    else 1 + Trailing(schedule[..|schedule| - 1])
  }

  /** Between finding the channel full and dropping, the queue shrinks by what consumers take. */
  lemma {:induction false} DroppingAfter(decoded: seq<Bytes>, schedule: seq<Actor>)
    requires Exec(Initial(decoded), schedule).producer.Dropping?
    ensures var c := Trailing(schedule);
            |Exec(Initial(decoded), schedule).queue| == if c <= CAPACITY then CAPACITY - c else 0
    decreases |schedule|
  {
    var n := |schedule| - 1;
    var before := Exec(Initial(decoded), schedule[..n]);
    if schedule[n] == ReceiveLoop {
      Reachable(decoded, schedule[..n]);
      assert before.producer.Idle?;
    } else {
      DroppingAfter(decoded, schedule[..n]);
    }
  }

  /** The receive loop's next step drops a frame although the queue has room exactly when
      between one and fifteen frames were taken since it found the channel full. */
  lemma NeedlessDropExactly(decoded: seq<Bytes>, schedule: seq<Actor>)
    requires Exec(Initial(decoded), schedule).producer.Dropping?
    ensures var s := Exec(Initial(decoded), schedule);
            var t := Exec(Initial(decoded), schedule + [ReceiveLoop]);
            && t.producer.Sending?
            && (|t.log| > |s.log| && |s.queue| < CAPACITY <==> 1 <= Trailing(schedule) < CAPACITY)
  {
    DroppingAfter(decoded, schedule);
    var next := schedule + [ReceiveLoop];
    assert next[..|next| - 1] == schedule;
  }

  function Loops(n: nat): (r: seq<Actor>)
    ensures |r| == n && forall i :: 0 <= i < n ==> r[i] == ReceiveLoop
  {
    seq(n, _ => ReceiveLoop)
  }

  lemma {:induction false} FillUp(decoded: seq<Bytes>, n: nat)
    requires n <= CAPACITY && n <= |decoded|
    ensures Exec(Initial(decoded), Loops(n)) == State(decoded[n..], Idle, decoded[..n], [])
  {
    if n > 0 {
      FillUp(decoded, n - 1);
      assert Loops(n)[..n - 1] == Loops(n - 1);
    } else {
      assert decoded[0..] == decoded && decoded[..0] == [];
    }
  }

  /** It happens: with seventeen frames, one taken at the wrong moment costs the next one. */
  lemma NeedlessDropWitness(decoded: seq<Bytes>)
    requires |decoded| > CAPACITY
    ensures var s := Exec(Initial(decoded), Loops(CAPACITY + 1) + [Consumer]);
            s.producer.Dropping? && |s.queue| == CAPACITY - 1
  {
    FillUp(decoded, CAPACITY);
    var full := Loops(CAPACITY + 1);
    assert full[..CAPACITY] == Loops(CAPACITY);
    assert Exec(Initial(decoded), full).producer.Dropping?;
    var taken := full + [Consumer];
    assert taken[..|full|] == full;
  }

  /** End to end: whoever joins a stream of whole frames at byte k, however the consumers
      are scheduled, sees only payloads sent wholly after the join, in order, none twice. */
  lemma JoinedStreamToConsumers(items: seq<Item>, k: nat, schedule: seq<Actor>)
    requires k <= |Wire(CMD_DATA_FRAME, items)|
    ensures var decoded := Payloads(Frames(Wire(CMD_DATA_FRAME, items)[k..]));
            var seen := Seen(Exec(Initial(decoded), schedule).log);
            exists n | 0 <= n <= |WhollyInside(CMD_DATA_FRAME, items, 0, k)| ::
              Subsequence(seen, WhollyInside(CMD_DATA_FRAME, items, 0, k)[..n])
  {
    hide Frames, Payloads, Wire, WhollyInside, Exec, Seen;
    Resynchronises(items, k);
    var decoded := Payloads(Frames(Wire(CMD_DATA_FRAME, items)[k..]));
    QueueIsRecentRun(decoded, schedule);
    var s := Exec(Initial(decoded), schedule);
    var n := |decoded| - |s.pending| - |InHand(s.producer)| - |s.queue|;
    assert Subsequence(Seen(s.log), decoded[..n]);
  }
}
