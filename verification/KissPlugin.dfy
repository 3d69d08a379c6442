/** The C++ plugin's receive loop (plugins/kiss-cla/kiss_cla_plugin.cpp): an automaton that
    sees one byte at a time and bounds its buffer, related to the nested-loop Go reader. */
module KissPlugin {
  import opened Prelude
  import opened Kiss
  import opened KissStream

  // --------------------------------------------------------------- the byte automaton

  /** `frames` logs the bodies closed so far, `oversize` the ones discarded for length. */
  datatype Automaton = Automaton(inFrame: bool, buffer: Bytes, frames: seq<Bytes>, oversize: nat)

  const INITIAL := Automaton(false, [], [], 0)

  function Step(a: Automaton, b: Byte, max: nat): Automaton {
    if b == FEND then
      if a.inFrame && a.buffer != [] then Automaton(false, [], a.frames + [a.buffer], a.oversize)
      else a.(inFrame := true, buffer := [])
    else if !a.inFrame then a
    else if |a.buffer| + 1 > max then Automaton(false, [], a.frames, a.oversize + 1)
    else a.(buffer := a.buffer + [b])
  }

  function Run(a: Automaton, s: Bytes, max: nat): Automaton
    decreases |s|
  {
    if s == [] then a else Run(Step(a, s[0], max), s[1..], max)
  }

  function NonEmpty(payloads: seq<Bytes>): seq<Bytes> {
    if payloads == [] then []
    else (if payloads[0] != [] then [payloads[0]] else []) + NonEmpty(payloads[1..])
  }

  lemma {:induction false} PayloadsSnoc(frames: seq<Bytes>, body: Bytes)
    ensures Payloads(frames + [body]) ==
            Payloads(frames) + (var r := DecodedFrame(Framed(body)); if r.Ok? then [r.value] else [])
  {
    hide DecodedFrame;
    if frames == [] {
      PayloadsCons(body, []);
    } else {
      PayloadsSnoc(frames[1..], body);
      assert frames + [body] == [frames[0]] + (frames[1..] + [body]);
      PayloadsCons(frames[0], frames[1..] + [body]);
    }
  }

  lemma {:induction false} NonEmptySnoc(ps: seq<Bytes>, p: Bytes)
    ensures NonEmpty(ps + [p]) == NonEmpty(ps) + if p != [] then [p] else []
  {
    if ps != [] {
      NonEmptySnoc(ps[1..], p);
      assert (ps + [p])[1..] == ps[1..] + [p];
    }
  }

  // ------------------------------------------------------------------------ the plugin

  /** One return of read(2): a byte, a timeout or EAGAIN, or an error that reopens the port. */
  datatype Read = Got(b: Byte) | NoData | Fault

  function BytesOf(input: seq<Read>): Bytes {
    if input == [] then []
    else (if input[0].Got? then [input[0].b] else []) + BytesOf(input[1..])
  }

  class KissClaPlugin {
    const maxFrameSize: nat
    const hasHost: bool         // whether onIngressSegment is registered
    var inFrame: bool
    var frameBuffer: Bytes
    var delivered: seq<Bytes>   // the onIngressSegment calls, in order
    var framesReceived: nat
    var errorsDecode: nat
    ghost var frames: seq<Bytes>
    ghost var oversize: nat

    constructor (maxFrameSize: nat, hasHost: bool)
      ensures this.maxFrameSize == maxFrameSize && this.hasHost == hasHost && Valid() && State() == INITIAL
    {
      this.maxFrameSize, this.hasHost := maxFrameSize, hasHost;
      inFrame, frameBuffer := false, [];
      delivered, framesReceived, errorsDecode := [], 0, 0;
      frames, oversize := [], 0;
    }

    /** The counters and the callback trace, tied to the frames closed so far. */
    ghost predicate Valid()
      reads this
    {
      && delivered == (if hasHost then NonEmpty(Payloads(frames)) else [])
      && framesReceived == |delivered|
      && errorsDecode + |Payloads(frames)| == oversize + |frames|
    }

    ghost function State(): Automaton
      reads this
    {
      Automaton(inFrame, frameBuffer, frames, oversize)
    }

    method ReceiveByte(b: Byte)
      requires Valid()
      modifies this
      ensures Valid() && State() == Step(old(State()), b, maxFrameSize)
    {
      if b == FEND {
        if inFrame && |frameBuffer| != 0 {
          DeliverFrame();
          frameBuffer := [];
          inFrame := false;
        } else {
          frameBuffer := [];
          inFrame := true;
        }
      } else if inFrame {
        frameBuffer := frameBuffer + [b];
        if |frameBuffer| > maxFrameSize {
          errorsDecode := errorsDecode + 1;
          oversize := oversize + 1;
          frameBuffer := [];
          inFrame := false;
        }
      }
    }

    /** A closing delimiter: rebuild the whole frame, decode it, call the host if it holds data. */
    method DeliverFrame()
      requires Valid()
      modifies `delivered, `framesReceived, `errorsDecode, `frames
      ensures Valid() && frames == old(frames) + [frameBuffer]
    {
      hide DecodedFrame, Payloads, NonEmpty;
      var fullFrame := [FEND];
      fullFrame := fullFrame + frameBuffer;
      fullFrame := fullFrame + [FEND];
      assert fullFrame == Framed(frameBuffer);
      var decoded := Decode(fullFrame);
      PayloadsSnoc(frames, frameBuffer);
      frames := frames + [frameBuffer];
      match decoded
      case Ok(segment) =>
        NonEmptySnoc(Payloads(old(frames)), segment);
        if |segment| != 0 && hasHost {
          delivered := delivered + [segment];
          framesReceived := framesReceived + 1;
        } else {
          assert delivered + [] == delivered;
        }
      case Err(_) =>
        assert Payloads(old(frames)) + [] == Payloads(old(frames));
        errorsDecode := errorsDecode + 1;
    }

    /** Timeouts and port faults leave the frame in progress alone, so only the bytes count. */
    method ReceiveLoop(input: seq<Read>)
      requires Valid()
      modifies this
      ensures Valid() && State() == Run(old(State()), BytesOf(input), maxFrameSize)
    {
      assert input[0..] == input;
      for i := 0 to |input|
        invariant Valid()
        invariant Run(State(), BytesOf(input[i..]), maxFrameSize)
                  == Run(old(State()), BytesOf(input), maxFrameSize)
      {
        assert input[i..][1..] == input[i + 1..];
        ghost var todo, later := BytesOf(input[i..]), BytesOf(input[i + 1..]);
        match input[i]
        case Got(b) =>
          assert todo == [b] + later;
          assert todo[0] == b && todo[1..] == later;
          ReceiveByte(b);
        case NoData =>
          assert todo == [] + later == later;
        case Fault =>
          assert todo == [] + later == later;
      }
    }
  }

  // --------------------------------------------------- the automaton on runs of bytes

  lemma {:induction false} RunSkips(a: Automaton, s: Bytes, max: nat)
    requires !a.inFrame
    ensures Run(a, s, max) == Run(a, ToFend(s), max)
  {
    if s != [] && s[0] != FEND {
      RunSkips(a, s[1..], max);
    }
  }

  lemma {:induction false} RunFill(a: Automaton, s: Bytes, max: nat)
    requires a.inFrame && a.buffer == []
    ensures Run(a, s, max) == Run(a, TrimLeft(s), max)
  {
    if s != [] && s[0] == FEND {
      RunFill(a, s[1..], max);
    }
  }

  /** The automaton after a delimiter-free run inside a frame. */
  function Absorb(a: Automaton, run: Bytes, max: nat): Automaton {
    if |a.buffer| + |run| <= max then a.(buffer := a.buffer + run)
    else Automaton(false, [], a.frames, a.oversize + 1)
  }

  lemma {:induction false} RunCollect(a: Automaton, s: Bytes, max: nat)
    requires a.inFrame && |a.buffer| <= max
    ensures Run(a, s, max) == Run(Absorb(a, Body(s), max), ToFend(s), max)
    decreases |s|
  {
    if s == [] || s[0] == FEND {
      assert a.buffer + [] == a.buffer;
    } else {
      var next := Step(a, s[0], max);
      if |a.buffer| + 1 > max {
        RunSkips(next, s[1..], max);
      } else {
        RunCollect(next, s[1..], max);
        assert a.buffer + [s[0]] + Body(s[1..]) == a.buffer + Body(s);
      }
    }
  }

  predicate AllFit(frames: seq<Bytes>, max: nat) {
    forall i :: 0 <= i < |frames| ==> |frames[i]| <= max
  }

  lemma TrimmedStart(s: Bytes)
    ensures TrimLeft(s) != [] ==> TrimLeft(s)[0] != FEND
  {
  }

  /** One frame of the Go reader, replayed by the automaton. */
  lemma RunOneFrame(a: Automaton, s: Bytes, max: nat)
    requires !a.inFrame
    ensures match NextFrame(s)
            case NoFrame => Run(a, s, max).frames == a.frames
            case Frame(body, rest) =>
              |body| <= max ==>
              Run(a, s, max) == Run(Automaton(false, [], a.frames + [body], a.oversize), rest, max)
  {
    RunSkips(a, s, max);
    var t := ToFend(s);
    if t != [] {
      var start := a.(inFrame := true, buffer := []);
      RunFill(start, t[1..], max);
      var data := TrimLeft(t);
      TrimmedStart(t);
      RunCollect(start, data, max);
      assert [] + Body(data) == Body(data);
      assert ToFend(data) != [] ==> Body(data) != [];
    }
  }

  lemma {:induction false} RunExtractsFrames(a: Automaton, s: Bytes, max: nat)
    requires !a.inFrame && AllFit(Frames(s), max)
    ensures Run(a, s, max).frames == a.frames + Frames(s)
    decreases |s|
  {
    hide Frames, Run;
    FramesUnfold(s);
    RunOneFrame(a, s, max);
    match NextFrame(s)
    case NoFrame =>
    case Frame(body, rest) =>
      assert Frames(s)[0] == body && Frames(s)[1..] == Frames(rest);
      forall i | 0 <= i < |Frames(rest)| ensures |Frames(rest)[i]| <= max {
        assert Frames(rest)[i] == Frames(s)[i + 1];
      }
      RunExtractsFrames(Automaton(false, [], a.frames + [body], a.oversize), rest, max);
      assert a.frames + [body] + Frames(rest) == a.frames + Frames(s);
  }

  lemma {:induction false} RunFramesFit(a: Automaton, s: Bytes, max: nat)
    requires |a.buffer| <= max && AllFit(a.frames, max)
    ensures AllFit(Run(a, s, max).frames, max)
    decreases |s|
  {
    if s != [] {
      RunFramesFit(Step(a, s[0], max), s[1..], max);
    }
  }

  /** The automaton and the Go reader extract the same frames from a byte stream exactly
      when every frame the Go reader finds there fits the plugin's buffer. */
  lemma ReadersAgreeExactly(s: Bytes, max: nat)
    ensures Run(INITIAL, s, max).frames == Frames(s) <==> AllFit(Frames(s), max)
  {
    RunFramesFit(INITIAL, s, max);
    if AllFit(Frames(s), max) {
      RunExtractsFrames(INITIAL, s, max);
      assert [] + Frames(s) == Frames(s);
    }
  }

  /** What follows the last whole frame of a stream: a frame begun and not closed, if any. */
  function Unfinished(s: Bytes): Bytes
    decreases |s|
  {
    match NextFrame(s)
    case NoFrame => TrimLeft(ToFend(s))
    case Frame(_, rest) => Unfinished(rest)
  }

  lemma NoFendNoBody(s: Bytes)
    requires ToFend(s) == []
    ensures Body(s) == s
  {
  }

  /** A last frame that never closes costs an error exactly when it does not fit. */
  lemma RunUnfinished(a: Automaton, s: Bytes, max: nat)
    requires !a.inFrame && a.buffer == [] && NextFrame(s).NoFrame?
    ensures Run(a, s, max).oversize == a.oversize + if |Unfinished(s)| > max then 1 else 0
  {
    RunSkips(a, s, max);
    var t := ToFend(s);
    if t != [] {
      var start := a.(inFrame := true, buffer := []);
      RunFill(start, t[1..], max);
      var data := TrimLeft(t);
      RunCollect(start, data, max);
      NoFendNoBody(data);
      assert [] + data == data;
    }
  }

  lemma {:induction false} RunOversize(a: Automaton, s: Bytes, max: nat)
    requires !a.inFrame && a.buffer == [] && AllFit(Frames(s), max)
    ensures Run(a, s, max).oversize == a.oversize + if |Unfinished(s)| > max then 1 else 0
    decreases |s|
  {
    hide Frames, Run;
    FramesUnfold(s);
    RunOneFrame(a, s, max);
    match NextFrame(s)
    case NoFrame => RunUnfinished(a, s, max);
    case Frame(body, rest) =>
      assert Frames(s)[0] == body && Frames(s)[1..] == Frames(rest);
      forall i | 0 <= i < |Frames(rest)| ensures |Frames(rest)[i]| <= max {
        assert Frames(rest)[i] == Frames(s)[i + 1];
      }
      RunOversize(Automaton(false, [], a.frames + [body], a.oversize), rest, max);
  }

  /** On a stream whose frames all fit, the plugin hands on what the Go receive loop delivers,
      without the empty payloads; their error counts agree too, except that a last frame that
      is too long and never closed costs the plugin one. */
  lemma ReceiversAgree(s: Bytes, max: nat)
    requires AllFit(Frames(s), max)
    ensures var end := Run(INITIAL, s, max);
            && NonEmpty(Payloads(end.frames)) == NonEmpty(Delivered([s]))
            && end.oversize + |end.frames| - |Payloads(end.frames)|
               == |Reported([s])| + if |Unfinished(s)| > max then 1 else 0
  {
    hide Frames, Payloads, Failures, Run, Unfinished;
    ReadersAgreeExactly(s, max);
    RunOversize(INITIAL, s, max);
    DecodedOrFailed(Frames(s));
    assert [s][1..] == [];
    assert Delivered([s]) == Payloads(Frames(s)) + [] == Payloads(Frames(s));
    assert Reported([s]) == Failures(Frames(s)) + [] + [] == Failures(Frames(s));
  }

  // --------------------------------------------------- streams of whole encoded frames

  function Fitting(frames: seq<Bytes>, max: nat): (r: seq<Bytes>)
    ensures |r| <= |frames|
  {
    if frames == [] then []
    else (if |frames[0]| <= max then [frames[0]] else []) + Fitting(frames[1..], max)
  }

  lemma FittingCons(body: Bytes, rest: seq<Bytes>, max: nat)
    ensures Fitting([body] + rest, max) == (if |body| <= max then [body] else []) + Fitting(rest, max)
  {
    assert ([body] + rest)[1..] == rest;
  }

  lemma {:induction false} RunTwice(a: Automaton, s: Bytes, t: Bytes, max: nat)
    ensures Run(a, s + t, max) == Run(Run(a, s, max), t, max)
    decreases |s|
  {
    if s == [] {
      assert s + t == t;
    } else {
      RunTwice(Step(a, s[0], max), s[1..], t, max);
      assert (s + t)[1..] == s[1..] + t;
    }
  }

  /** The automaton between items: nothing buffered, `bodies` seen since `from`. */
  ghost predicate BetweenItems(from: Automaton, now: Automaton, bodies: seq<Bytes>, max: nat) {
    && now.buffer == []
    && now.frames == from.frames + Fitting(bodies, max)
    && now.oversize + |Fitting(bodies, max)| == from.oversize + |bodies|
  }

  lemma RunItem(a: Automaton, cmd: Byte, item: Item, max: nat)
    requires cmd != FEND && a.buffer == []
    ensures BetweenItems(a, Run(a, ItemBytes(cmd, item), max), BodyFrom(cmd, item, 0, 0), max)
  {
    if item.Fill? {
      assert [FEND][1..] == [];
    } else {
      var body := [cmd] + Escape(item.payload);
      EscapeHidesFend(item.payload);
      assert ItemBytes(cmd, item) == Framed(body);
      RunWholeFrame(a, body, max);
      FittingCons(body, [], max);
    }
  }

  lemma RunWholeFrame(a: Automaton, body: Bytes, max: nat)
    requires a.buffer == [] && body != [] && FEND !in body
    ensures Run(a, Framed(body), max) ==
            if |body| <= max then Automaton(false, [], a.frames + [body], a.oversize)
            else Automaton(true, [], a.frames, a.oversize + 1)
  {
    var start, s := a.(inFrame := true), Framed(body);
    assert s[1..] == body + [FEND];
    DataThenFend(body, [FEND]);
    RunCollect(start, s[1..], max);
    assert [] + body == body && [FEND][1..] == [];
    RunFend(Absorb(start, body, max), max);
  }

  lemma RunFend(a: Automaton, max: nat)
    ensures Run(a, [FEND], max) == Step(a, FEND, max)
  {
    assert [FEND][1..] == [];
  }

  /** Joining at offset c of an item, outside a frame. */
  lemma RunCutItem(a: Automaton, cmd: Byte, item: Item, c: nat, max: nat)
    requires cmd != FEND && c < |ItemBytes(cmd, item)| && !a.inFrame && a.buffer == []
    ensures BetweenItems(a, Run(a, ItemBytes(cmd, item)[c..], max), BodyFrom(cmd, item, 0, c), max)
  {
    if c == 0 {
      assert ItemBytes(cmd, item)[c..] == ItemBytes(cmd, item);
      RunItem(a, cmd, item, max);
    } else {
      CutItem(cmd, item, c);
      var t := ([cmd] + Escape(item.payload))[c - 1..];
      RunSkips(a, t + [FEND], max);
      DataThenFend(t, [FEND]);
      assert [FEND][1..] == [];
    }
  }

  lemma BetweenItemsJoin(a: Automaton, b: Automaton, c: Automaton, item: seq<Bytes>, rest: seq<Bytes>, max: nat)
    requires BetweenItems(a, b, item, max) && BetweenItems(b, c, rest, max) && |item| <= 1
    ensures BetweenItems(a, c, item + rest, max)
  {
    if item == [] {
      assert item + rest == rest;
    } else {
      assert item == [item[0]];
      FittingCons(item[0], rest, max);
      FittingCons(item[0], [], max);
    }
  }

  lemma {:induction false} RunWireSuffix(a: Automaton, cmd: Byte, items: seq<Item>, at: nat, k: nat, max: nat)
    requires cmd != FEND && a.buffer == [] && k <= at + |Wire(cmd, items)|
    requires k > at ==> !a.inFrame
    ensures BetweenItems(a, Run(a, Wire(cmd, items)[if k <= at then 0 else k - at..], max),
                         BodiesInside(cmd, items, at, k), max)
    decreases items
  {
    hide Run, BetweenItems, ItemBytes, Fitting;
    if items == [] {
      RunNothing(a, max);
    } else {
      var first, tail := ItemBytes(cmd, items[0]), Wire(cmd, items[1..]);
      var next, c := at + |first|, if k <= at then 0 else k - at;
      var head, rest := BodyFrom(cmd, items[0], at, k), BodiesInside(cmd, items[1..], next, k);
      assert tail[0..] == tail;
      if k >= next {
        ItemNotEmpty(cmd, items[0]);
        RunWireSuffix(a, cmd, items[1..], next, k, max);
        assert Wire(cmd, items)[c..] == tail[k - next..];
        assert head + rest == rest;
      } else {
        if k <= at {
          RunItem(a, cmd, items[0], max);
          assert first[0..] == first;
        } else {
          RunCutItem(a, cmd, items[0], c, max);
        }
        var b := Run(a, first[c..], max);
        RunWireSuffix(b, cmd, items[1..], next, k, max);
        assert Wire(cmd, items)[c..] == first[c..] + tail;
        RunTwice(a, first[c..], tail, max);
        BetweenItemsJoin(a, b, Run(b, tail, max), head, rest, max);
      }
    }
  }

  lemma RunNothing(a: Automaton, max: nat)
    requires a.buffer == []
    ensures BetweenItems(a, Run(a, [], max), [], max)
  {
  }

  // ------------------------------------------------------------ in terms of payloads

  predicate Fits(payload: Bytes, max: nat) {
    1 + |Escape(payload)| <= max
  }

  /** The payloads the plugin hands on: those that fit and are not empty. */
  function Accepted(payloads: seq<Bytes>, max: nat): seq<Bytes> {
    if payloads == [] then []
    else
      var p := payloads[0];
      (if p != [] && Fits(p, max) then [p] else []) + Accepted(payloads[1..], max)
  }

  function CountOversize(payloads: seq<Bytes>, max: nat): nat {
    if payloads == [] then 0
    else (if Fits(payloads[0], max) then 0 else 1) + CountOversize(payloads[1..], max)
  }

  function BodiesOf(cmd: Byte, payloads: seq<Bytes>): seq<Bytes> {
    if payloads == [] then [] else [[cmd] + Escape(payloads[0])] + BodiesOf(cmd, payloads[1..])
  }

  lemma {:induction false} BodiesOfInside(cmd: Byte, items: seq<Item>, at: nat, k: nat)
    ensures BodiesInside(cmd, items, at, k) == BodiesOf(cmd, WhollyInside(cmd, items, at, k))
  {
    if items != [] {
      var next := at + |ItemBytes(cmd, items[0])|;
      BodiesOfInside(cmd, items[1..], next, k);
      var ps, rest := WhollyInside(cmd, items, at, k), WhollyInside(cmd, items[1..], next, k);
      if items[0].Data? && at >= k {
        assert ps[1..] == rest;
      } else {
        assert ps == rest && BodiesInside(cmd, items, at, k) == BodiesInside(cmd, items[1..], next, k);
      }
    }
  }

  lemma {:induction false} AcceptedFromBodies(cmd: Byte, payloads: seq<Bytes>, max: nat)
    requires cmd != FEND
    ensures var fit := Fitting(BodiesOf(cmd, payloads), max);
            NonEmpty(Payloads(fit)) == Accepted(payloads, max) &&
            |Payloads(fit)| == |fit| &&
            |fit| + CountOversize(payloads, max) == |BodiesOf(cmd, payloads)|
  {
    hide DecodedFrame;
    if payloads != [] {
      var p, ps := payloads[0], payloads[1..];
      var body, rest := [cmd] + Escape(p), BodiesOf(cmd, ps);
      AcceptedFromBodies(cmd, ps, max);
      FittingCons(body, rest, max);
      if Fits(p, max) {
        PortRoundTrip(cmd, p);
        PayloadsCons(body, Fitting(rest, max));
        var decoded := Payloads(Fitting(rest, max));
        assert ([p] + decoded)[1..] == decoded;
      } else {
        assert [] + Fitting(rest, max) == Fitting(rest, max);
      }
    }
  }

  /** The plugin joining a stream of fill and whole frames at byte k: it hands on exactly
      the non-empty payloads that fit and lie wholly after the join, and its decode errors
      are exactly the oversize ones, so an oversize frame costs one error and no neighbour. */
  lemma PluginResynchronises(kissPort: int, items: seq<Item>, k: nat, max: nat)
    requires kissPort % 16 != 12
    requires k <= |Wire(PortCommand(kissPort), items)|
    ensures var cmd := PortCommand(kissPort);
            var end := Run(INITIAL, Wire(cmd, items)[k..], max);
            var inside := WhollyInside(cmd, items, 0, k);
            NonEmpty(Payloads(end.frames)) == Accepted(inside, max) &&
            end.oversize + |end.frames| - |Payloads(end.frames)| == CountOversize(inside, max)
  {
    hide Run, Wire, BodiesInside, BodiesOf, Fitting, Payloads, NonEmpty, Accepted, CountOversize, WhollyInside;
    var cmd := PortCommand(kissPort);
    RunWireSuffix(INITIAL, cmd, items, 0, k, max);
    BodiesOfInside(cmd, items, 0, k);
    AcceptedFromBodies(cmd, WhollyInside(cmd, items, 0, k), max);
    var fit := Fitting(BodiesInside(cmd, items, 0, k), max);
    assert [] + fit == fit;
  }
}
