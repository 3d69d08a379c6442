/** The Go stream reader: readKISSFrameFromReader and the receive loop over it (kiss/tnc.go).
    The serial port yields runs of bytes with a read error after each; it closes after the last. */
module KissStream {
  import opened Prelude
  import opened Kiss

  // ------------------------------------------------- what one call of the reader means

  /** The suffix that starts at the first delimiter, empty if there is none. */
  function ToFend(s: Bytes): (t: Bytes)
    ensures |t| <= |s| && (t != [] ==> t[0] == FEND)
  {
    if s == [] || s[0] == FEND then s else ToFend(s[1..])
  }

  /** The delimiter-free prefix before it. */
  function Body(s: Bytes): Bytes {
    if s == [] || s[0] == FEND then [] else [s[0]] + Body(s[1..])
  }

  datatype Scan = NoFrame | Frame(body: Bytes, rest: Bytes)

  /** Skip to a delimiter, skip fill, take the run up to the next delimiter. */
  function NextFrame(s: Bytes): (f: Scan)
    ensures f.Frame? ==> |f.rest| < |s|
  {
    TrimLeftShrinks(ToFend(s));
    var data := TrimLeft(ToFend(s));
    var close := ToFend(data);
    if close == [] then NoFrame else Frame(Body(data), close[1..])
  }

  function Fends(n: nat): (r: Bytes)
    ensures |r| == n && forall i :: 0 <= i < n ==> r[i] == 0xC0
  {
    seq(n, _ => 0xC0)
  }

  /** Garbage without delimiters, at least one delimiter, a body, its closing delimiter, the rest. */
  predicate Splits(s: Bytes, garbage: Bytes, n: nat, body: Bytes, rest: Bytes) {
    && s == garbage + Fends(n) + body + [0xC0] + rest
    && n >= 1 && 0xC0 !in garbage && 0xC0 !in body && body != []
  }

  /** What one call extracts, for any stream: exactly the first way to split it so. */
  lemma NextFrameExactly(s: Bytes, body: Bytes, rest: Bytes)
    ensures NextFrame(s) == Frame(body, rest) <==> exists garbage, n :: Splits(s, garbage, n, body, rest)
  {
    if NextFrame(s) == Frame(body, rest) {
      var garbage, n := FrameSplits(s);
    }
    if exists garbage, n :: Splits(s, garbage, n, body, rest) {
      var garbage, n :| Splits(s, garbage, n, body, rest);
      SplitIsFrame(s, garbage, n, body, rest);
    }
  }

  lemma FrameSplits(s: Bytes) returns (garbage: Bytes, n: nat)
    requires NextFrame(s).Frame?
    ensures Splits(s, garbage, n, NextFrame(s).body, NextFrame(s).rest)
  {
    hide Body, TrimLeft;
    var t := ToFend(s);
    var data := TrimLeft(t);
    var body, rest := NextFrame(s).body, NextFrame(s).rest;
    BodyAndRest(s);
    FillAndRest(t);
    BodyAndRest(data);
    TrimLeftEmpty(t);
    garbage, n := Body(s), |t| - |data|;
    assert ToFend(data) == [FEND] + rest;
    hide *;
    Regroup(garbage, Fends(n), body, rest);
  }

  lemma Regroup(garbage: Bytes, fill: Bytes, body: Bytes, rest: Bytes)
    ensures garbage + (fill + (body + ([0xC0] + rest))) == garbage + fill + body + [0xC0] + rest
  {
  }

  lemma SplitIsFrame(s: Bytes, garbage: Bytes, n: nat, body: Bytes, rest: Bytes)
    requires Splits(s, garbage, n, body, rest)
    ensures NextFrame(s) == Frame(body, rest)
  {
    hide Body, TrimLeft;
    var close := [FEND] + rest;
    var data := body + close;
    Regroup(garbage, Fends(n), body, rest);
    FillThenData(n, data);
    DataThenFend(garbage, Fends(n) + data);
    DataThenFend(body, close);
    assert close[1..] == rest;
  }

  lemma {:induction false} BodyAndRest(s: Bytes)
    ensures s == Body(s) + ToFend(s) && FEND !in Body(s)
    ensures s != [] && s[0] != FEND ==> Body(s) != []
  {
    if s != [] && s[0] != FEND {
      BodyAndRest(s[1..]);
    }
  }

  lemma {:induction false} FillAndRest(s: Bytes)
    ensures |TrimLeft(s)| <= |s| && s == Fends(|s| - |TrimLeft(s)|) + TrimLeft(s)
  {
    if s != [] && s[0] == FEND {
      FillAndRest(s[1..]);
      var n := |s| - |TrimLeft(s)|;
      assert Fends(n) == [s[0]] + Fends(n - 1);
    } else {
      assert Fends(0) + s == s;
    }
  }

  lemma {:induction false} FillThenData(n: nat, data: Bytes)
    requires data != [] && data[0] != FEND
    ensures TrimLeft(Fends(n) + data) == data
  {
    if n > 0 {
      FillThenData(n - 1, data);
      assert (Fends(n) + data)[1..] == Fends(n - 1) + data;
    } else {
      assert Fends(0) + data == data;
    }
  }

  /** Every frame body the reader extracts from a stream, in order. */
  function Frames(s: Bytes): seq<Bytes>
    decreases |s|
  {
    match NextFrame(s)
    case NoFrame => []
    case Frame(body, rest) => [body] + Frames(rest)
  }

  lemma TrimLeftShrinks(s: Bytes)
    ensures |TrimLeft(s)| <= |s|
  {
  }

  /** The payloads of those frames whose escapes are valid. */
  function Payloads(bodies: seq<Bytes>): seq<Bytes> {
    if bodies == [] then []
    else
      var r := DecodedFrame(Framed(bodies[0]));
      (if r.Ok? then [r.value] else []) + Payloads(bodies[1..])
  }

  /** What the receive loop reports on its error channel. */
  datatype Report = ReadError | Undecodable(error: Error)

  /** The errors of the other frames, in order. */
  function Failures(bodies: seq<Bytes>): seq<Report> {
    if bodies == [] then []
    else
      var r := DecodedFrame(Framed(bodies[0]));
      (if r.Err? then [Undecodable(r.error)] else []) + Failures(bodies[1..])
  }

  // ------------------------------------------------------------- the reader itself

  /** Where the port stands: the bytes before the next read error, the later runs, and whether
      the last run's end has been met. */
  datatype Position = Position(current: Bytes, later: seq<Bytes>, closed: bool)
  {
    /** After a read error: on to the next run, if there is one. */
    function AfterError(): Position {
      if later == [] then Position([], [], true) else Position(later[0], later[1..], false)
    }
  }

  class Reader {
    var current: Bytes
    var later: seq<Bytes>
    var closed: bool

    constructor (first: Bytes, later: seq<Bytes>)
      ensures Here() == Position(first, later, false)
    {
      this.current, this.later, this.closed := first, later, false;
    }

    ghost function Here(): Position
      reads this
    {
      Position(current, later, closed)
    }

    method ReadByte() returns (r: Option<Byte>)
      requires !closed
      modifies this
      ensures if old(current) == [] then r == None && Here() == old(Here()).AfterError()
              else r == Some(old(current)[0]) && Here() == old(Here()).(current := old(current)[1..])
    {
      if current == [] {
        if later == [] {
          closed := true;
        } else {
          current, later := later[0], later[1..];
        }
        return None;
      }
      r := Some(current[0]);
      current := current[1..];
    }

    method ReadFrame() returns (r: Option<Bytes>)
      requires !closed
      modifies this
      ensures match NextFrame(old(current))
              case NoFrame => r == None && Here() == old(Here()).AfterError()
              case Frame(body, rest) => r == Some(Framed(body)) && Here() == old(Here()).(current := rest)
    {
      var garbage := SkipToFend();
      if !garbage {
        return None;
      }
      var first := SkipFill();
      if first.None? {
        return None;
      }
      ghost var tail := current;
      r := ReadToFend(first.value);
      assert ([first.value] + tail)[1..] == tail;
    }

    /** Loop 1: drop bytes until a delimiter has been consumed. */
    method SkipToFend() returns (found: bool)
      requires !closed
      modifies this
      ensures var t := ToFend(old(current));
              found == (t != []) &&
              Here() == if found then old(Here()).(current := t[1..]) else old(Here()).AfterError()
    {
      while true
        invariant Here() == old(Here()).(current := current)
        invariant ToFend(current) == ToFend(old(current))
        decreases |current|
      {
        var b := ReadByte();
        if b.None? {
          return false;
        }
        if b.value == FEND {
          return true;
        }
      }
    }

    /** Loop 2: drop further delimiters, stop after the first data byte. */
    method SkipFill() returns (first: Option<Byte>)
      requires !closed
      modifies this
      ensures var data := TrimLeft(old(current));
              if data == [] then first == None && Here() == old(Here()).AfterError()
              else first == Some(data[0]) && data[0] != FEND && Here() == old(Here()).(current := data[1..])
    {
      while true
        invariant Here() == old(Here()).(current := current)
        invariant TrimLeft(current) == TrimLeft(old(current))
        decreases |current|
      {
        var b := ReadByte();
        if b.None? {
          return None;
        }
        if b.value != FEND {
          return b;
        }
      }
    }

    /** Loop 3: collect up to and including the closing delimiter. */
    method ReadToFend(first: Byte) returns (r: Option<Bytes>)
      requires !closed && first != FEND
      modifies this
      ensures var close := ToFend(old(current));
              if close == [] then r == None && Here() == old(Here()).AfterError()
              else r == Some(Framed([first] + Body(old(current)))) && Here() == old(Here()).(current := close[1..])
    {
      var buf := [FEND, first];
      while true
        invariant Here() == old(Here()).(current := current)
        invariant ToFend(current) == ToFend(old(current))
        invariant [FEND, first] + Body(old(current)) == buf + Body(current)
        decreases |current|
      {
        ghost var before := current;
        var b := ReadByte();
        if b.None? {
          return None;
        }
        if b.value == FEND {
          assert buf + [] == buf;
          assert [FEND, first] + Body(old(current)) == [FEND] + ([first] + Body(old(current)));
          buf := buf + [b.value];
          return Some(buf);
        }
        assert buf + Body(before) == (buf + [b.value]) + Body(current);
        buf := buf + [b.value];
      }
    }
  }

  // --------------------------------------------------------------- the receive loop

  /** The payloads of all runs: a frame cut by a read error is lost, and its tail is skipped
      like any cut-off tail. */
  function Delivered(runs: seq<Bytes>): seq<Bytes> {
    if runs == [] then [] else Payloads(Frames(runs[0])) + Delivered(runs[1..])
  }

  /** The reports: those of each run's frames, and a read error between one run and the next. */
  function Reported(runs: seq<Bytes>): seq<Report> {
    if runs == [] then []
    else Failures(Frames(runs[0])) + (if |runs| > 1 then [ReadError] else []) + Reported(runs[1..])
  }

  function FrameCount(runs: seq<Bytes>): nat {
    if runs == [] then 0 else |Frames(runs[0])| + FrameCount(runs[1..])
  }

  lemma {:induction false} DecodedOrFailed(bodies: seq<Bytes>)
    ensures |Payloads(bodies)| + |Failures(bodies)| == |bodies|
  {
    hide DecodedFrame;
    if bodies != [] {
      DecodedOrFailed(bodies[1..]);
    }
  }

  /** Nothing goes unnoticed: every frame is delivered or reported, and so is the read error
      between one run and the next. */
  lemma {:induction false} EverythingReported(runs: seq<Bytes>)
    requires runs != []
    ensures |Delivered(runs)| + |Reported(runs)| == FrameCount(runs) + |runs| - 1
  {
    hide Frames, Payloads, Failures;
    DecodedOrFailed(Frames(runs[0]));
    if |runs| > 1 {
      EverythingReported(runs[1..]);
    } else {
      assert runs[1..] == [];
    }
  }

  /** The receive loop until the port is closed: every frame is decoded, bad escapes and read
      errors go to the error channel and payloads to the frame channel, each in order. */
  method ReceiveAll(reader: Reader) returns (delivered: seq<Bytes>, errors: seq<Report>)
    requires !reader.closed
    modifies reader
    ensures delivered == Delivered([old(reader.current)] + old(reader.later))
    ensures errors == Reported([old(reader.current)] + old(reader.later))
    ensures reader.closed
  {
    ghost var runs := [reader.current] + reader.later;
    hide Progress, Delivered, Reported, Frames, Payloads, Failures, NextFrame;
    delivered, errors := [], [];
    ProgressStarts(runs);
    while true
      invariant !reader.closed
      invariant Progress(runs, delivered, errors, [reader.current] + reader.later)
      decreases |reader.later|, |reader.current|
    {
      ghost var current, later := reader.current, reader.later;
      var frame := reader.ReadFrame();
      if frame.None? {
        ErrorStep(runs, delivered, errors, current, later);
        if reader.closed {
          return;
        }
        assert later == [reader.current] + reader.later;
        errors := errors + [ReadError];
        continue;
      }
      FrameStep(runs, delivered, errors, current, later);
      var data := Decode(frame.value);
      match data
      case Ok(payload) => delivered := delivered + [payload];
      case Err(e) => errors := errors + [Undecodable(e)];
    }
  }

  /** What the receive loop has handed on, and what it still owes for the runs ahead. */
  ghost predicate Progress(runs: seq<Bytes>, delivered: seq<Bytes>, errors: seq<Report>, ahead: seq<Bytes>) {
    && Delivered(runs) == delivered + Delivered(ahead)
    && Reported(runs) == errors + Reported(ahead)
  }

  lemma ProgressStarts(runs: seq<Bytes>)
    ensures Progress(runs, [], [], runs)
  {
    assert [] + Delivered(runs) == Delivered(runs);
    assert [] + Reported(runs) == Reported(runs);
  }

  lemma FrameStep(runs: seq<Bytes>, delivered: seq<Bytes>, errors: seq<Report>, current: Bytes, later: seq<Bytes>)
    requires Progress(runs, delivered, errors, [current] + later) && NextFrame(current).Frame?
    ensures var f := NextFrame(current);
            var r := DecodedFrame(Framed(f.body));
            if r.Ok? then Progress(runs, delivered + [r.value], errors, [f.rest] + later)
            else Progress(runs, delivered, errors + [Undecodable(r.error)], [f.rest] + later)
  {
    hide Frames, DecodedFrame, Payloads, Failures;
    FramesUnfold(current);
    var f := NextFrame(current);
    var r := DecodedFrame(Framed(f.body));
    var tail := if later != [] then [ReadError] else [];
    assert ([current] + later)[1..] == later && ([f.rest] + later)[1..] == later;
    var ps, fs := Payloads(Frames(f.rest)), Failures(Frames(f.rest));
    if r.Ok? {
      assert delivered + (([r.value] + ps) + Delivered(later)) == delivered + [r.value] + (ps + Delivered(later));
      assert [] + fs == fs;
    } else {
      assert [] + ps == ps;
      var bad := [Undecodable(r.error)];
      assert errors + ((bad + fs) + tail + Reported(later)) == errors + bad + (fs + tail + Reported(later));
    }
  }

  lemma ErrorStep(runs: seq<Bytes>, delivered: seq<Bytes>, errors: seq<Report>, current: Bytes, later: seq<Bytes>)
    requires Progress(runs, delivered, errors, [current] + later) && NextFrame(current).NoFrame?
    ensures later == [] ==> delivered == Delivered(runs) && errors == Reported(runs)
    ensures later != [] ==> Progress(runs, delivered, errors + [ReadError], later)
  {
    hide DecodedFrame;
    FramesUnfold(current);
    assert ([current] + later)[1..] == later;
    if later != [] {
      assert [] + Delivered(later) == Delivered(later);
      assert errors + ([] + [ReadError] + Reported(later)) == errors + [ReadError] + Reported(later);
    } else {
      assert Delivered([current] + later) == [] + [] && Reported([current] + later) == [] + [] + [];
      assert delivered + [] == delivered && errors + [] == errors;
    }
  }

  lemma FramesUnfold(s: Bytes)
    ensures match NextFrame(s)
            case NoFrame => Frames(s) == []
            case Frame(body, rest) =>
              var r := DecodedFrame(Framed(body));
              Frames(s) == [body] + Frames(rest) &&
              Payloads(Frames(s)) == (if r.Ok? then [r.value] else []) + Payloads(Frames(rest)) &&
              Failures(Frames(s)) == (if r.Err? then [Undecodable(r.error)] else []) + Failures(Frames(rest))
  {
    if NextFrame(s).Frame? {
      PayloadsCons(NextFrame(s).body, Frames(NextFrame(s).rest));
      FailuresCons(NextFrame(s).body, Frames(NextFrame(s).rest));
    }
  }

  lemma FailuresCons(body: Bytes, rest: seq<Bytes>)
    ensures var r := DecodedFrame(Framed(body));
            Failures([body] + rest) == (if r.Err? then [Undecodable(r.error)] else []) + Failures(rest)
  {
    assert ([body] + rest)[1..] == rest;
  }

  // ------------------------------------------------------------- self-synchronisation

  /** What a sender puts on the line: fill delimiters and whole frames. */
  datatype Item = Fill | Data(payload: Bytes)

  function ItemBytes(cmd: Byte, item: Item): Bytes {
    match item
    case Fill => [FEND]
    case Data(payload) => Encoded(cmd, payload)
  }

  function Wire(cmd: Byte, items: seq<Item>): Bytes {
    if items == [] then [] else ItemBytes(cmd, items[0]) + Wire(cmd, items[1..])
  }

  /** The frame body of an item at offset `at`, if it starts at or after offset k. */
  function BodyFrom(cmd: Byte, item: Item, at: nat, k: nat): seq<Bytes> {
    if item.Data? && at >= k then [[cmd] + Escape(item.payload)] else []
  }

  /** Frame bodies of the items that start at or after offset k, item 0 being at offset `at`. */
  function BodiesInside(cmd: Byte, items: seq<Item>, at: nat, k: nat): seq<Bytes> {
    if items == [] then []
    else BodyFrom(cmd, items[0], at, k)
         + BodiesInside(cmd, items[1..], at + |ItemBytes(cmd, items[0])|, k)
  }

  /** Payloads of the items whose encodings lie wholly at or after offset k. */
  function WhollyInside(cmd: Byte, items: seq<Item>, at: nat, k: nat): seq<Bytes> {
    if items == [] then []
    else
      (if items[0].Data? && at >= k then [items[0].payload] else [])
      + WhollyInside(cmd, items[1..], at + |ItemBytes(cmd, items[0])|, k)
  }

  lemma {:induction false} DataThenFend(t: Bytes, s: Bytes)
    requires FEND !in t && (s != [] ==> s[0] == FEND)
    ensures ToFend(t + s) == s && Body(t + s) == t
  {
    if t == [] {
      assert t + s == s;
    } else {
      assert (t + s)[0] == t[0] && (t + s)[1..] == t[1..] + s;
      DataThenFend(t[1..], s);
    }
  }

  /** A leading cut-off tail ending in a delimiter costs nothing: the delimiter becomes
      fill before the next frame. */
  lemma CutTailIsFill(t: Bytes, s: Bytes)
    requires FEND !in t && (s != [] ==> s[0] == FEND)
    ensures Frames(t + [FEND] + s) == Frames(s)
  {
    var fill := [FEND] + s;
    assert t + [FEND] + s == t + fill && fill[1..] == s;
    DataThenFend(t, fill);
    assert NextFrame(t + fill) == NextFrame(s);
  }

  lemma FrameFirst(cmd: Byte, payload: Bytes, s: Bytes)
    requires cmd != FEND
    ensures Frames(Encoded(cmd, payload) + s) == [[cmd] + Escape(payload)] + Frames(s)
  {
    var body := [cmd] + Escape(payload);
    EscapeHidesFend(payload);
    var whole, data, close := Encoded(cmd, payload) + s, body + ([FEND] + s), [FEND] + s;
    assert whole == [FEND] + data && whole[1..] == data && data[0] == cmd;
    DataThenFend(body, close);
    assert close[1..] == s;
    assert ToFend(whole) == whole && TrimLeft(whole) == TrimLeft(data) == data;
    assert NextFrame(whole) == Frame(body, s);
  }

  lemma WireStartsWithFend(cmd: Byte, items: seq<Item>)
    ensures Wire(cmd, items) == [] || Wire(cmd, items)[0] == FEND
  {
  }

  /** Where a cut at offset c of one item's bytes leaves a delimiter-free tail. */
  lemma CutItem(cmd: Byte, item: Item, c: nat)
    requires cmd != FEND && 0 < c < |ItemBytes(cmd, item)|
    ensures item.Data?
    ensures var body := [cmd] + Escape(item.payload);
            FEND !in body[c - 1..] && ItemBytes(cmd, item)[c..] == body[c - 1..] + [FEND]
  {
    hide Escape;
    var body := [cmd] + Escape(item.payload);
    EscapeHidesFend(item.payload);
    assert ItemBytes(cmd, item) == Framed(body);
    hide *;
    CutFramed(body, c);
  }

  lemma CutFramed(body: Bytes, c: nat)
    requires 0 < c < |Framed(body)| && FEND !in body
    ensures FEND !in body[c - 1..] && Framed(body)[c..] == body[c - 1..] + [FEND]
  {
  }

  lemma ItemNotEmpty(cmd: Byte, item: Item)
    ensures |ItemBytes(cmd, item)| > 0
  {
  }

  lemma FramesOfNothing()
    ensures Frames([]) == []
  {
  }

  /** The rest of one item from offset c on, followed by whole items. */
  lemma FramesOfItemSuffix(cmd: Byte, item: Item, c: nat, tail: Bytes)
    requires cmd != FEND && c < |ItemBytes(cmd, item)|
    requires tail != [] ==> tail[0] == FEND
    ensures Frames(ItemBytes(cmd, item)[c..] + tail) == BodyFrom(cmd, item, 0, c) + Frames(tail)
  {
    hide Frames;
    if c > 0 {
      CutItem(cmd, item, c);
      CutTailIsFill(([cmd] + Escape(item.payload))[c - 1..], tail);
      assert [] + Frames(tail) == Frames(tail);
    } else if item.Fill? {
      assert [FEND][c..] + tail == [] + [FEND] + tail;
      CutTailIsFill([], tail);
      assert [] + Frames(tail) == Frames(tail);
    } else {
      assert ItemBytes(cmd, item)[c..] == Encoded(cmd, item.payload);
      FrameFirst(cmd, item.payload, tail);
    }
  }

  lemma {:induction false} FramesOfSuffix(cmd: Byte, items: seq<Item>, at: nat, k: nat)
    requires cmd != FEND && k <= at + |Wire(cmd, items)|
    ensures Frames(Wire(cmd, items)[if k <= at then 0 else k - at..]) == BodiesInside(cmd, items, at, k)
  {
    hide Frames, ItemBytes;
    if items == [] {
      FramesOfNothing();
    } else {
      var first, tail := ItemBytes(cmd, items[0]), Wire(cmd, items[1..]);
      var next, c := at + |first|, if k <= at then 0 else k - at;
      FramesOfSuffix(cmd, items[1..], next, k);
      ItemNotEmpty(cmd, items[0]);
      if k >= next {
        assert Wire(cmd, items)[c..] == tail[if k <= next then 0 else k - next..];
        assert BodiesInside(cmd, items, at, k) == [] + BodiesInside(cmd, items[1..], next, k);
      } else {
        assert Wire(cmd, items)[c..] == first[c..] + tail;
        assert tail[0..] == tail;
        WireStartsWithFend(cmd, items[1..]);
        FramesOfItemSuffix(cmd, items[0], c, tail);
      }
    }
  }

  lemma {:induction false} BodiesDecode(cmd: Byte, items: seq<Item>, at: nat, k: nat)
    requires cmd != FEND
    ensures Payloads(BodiesInside(cmd, items, at, k)) == WhollyInside(cmd, items, at, k)
  {
    hide DecodedFrame, ItemBytes, Escape, Payloads;
    if items == [] {
      NoPayloads();
    } else {
      var next := at + |ItemBytes(cmd, items[0])|;
      var rest := BodiesInside(cmd, items[1..], next, k);
      BodiesDecode(cmd, items[1..], next, k);
      if items[0].Data? && at >= k {
        BodyDecodes(cmd, items[0].payload, rest);
        assert BodiesInside(cmd, items, at, k) == [[cmd] + Escape(items[0].payload)] + rest;
        assert WhollyInside(cmd, items, at, k) == [items[0].payload] + WhollyInside(cmd, items[1..], next, k);
      } else {
        assert BodiesInside(cmd, items, at, k) == rest;
        assert WhollyInside(cmd, items, at, k) == WhollyInside(cmd, items[1..], next, k);
      }
    }
  }

  lemma NoPayloads()
    ensures Payloads([]) == []
  {
  }

  lemma BodyDecodes(cmd: Byte, payload: Bytes, rest: seq<Bytes>)
    requires cmd != FEND
    ensures Payloads([[cmd] + Escape(payload)] + rest) == [payload] + Payloads(rest)
  {
    hide DecodedFrame, Escape, Payloads;
    PortRoundTrip(cmd, payload);
    PayloadsCons([cmd] + Escape(payload), rest);
  }

  lemma PayloadsCons(body: Bytes, rest: seq<Bytes>)
    ensures Payloads([body] + rest) ==
            (var r := DecodedFrame(Framed(body)); if r.Ok? then [r.value] else []) + Payloads(rest)
  {
    assert ([body] + rest)[1..] == rest;
  }

  /** Self-synchronisation. Joining a stream of fill and whole frames at any byte delivers
      exactly the payloads whose encodings lie wholly after the join, in order. */
  lemma Resynchronises(items: seq<Item>, k: nat)
    requires k <= |Wire(CMD_DATA_FRAME, items)|
    ensures Payloads(Frames(Wire(CMD_DATA_FRAME, items)[k..])) ==
            WhollyInside(CMD_DATA_FRAME, items, 0, k)
  {
    FramesOfSuffix(CMD_DATA_FRAME, items, 0, k);
    BodiesDecode(CMD_DATA_FRAME, items, 0, k);
  }
}
