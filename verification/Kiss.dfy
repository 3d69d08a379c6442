/** The KISS transparency codec: kiss/kiss.go, and the encoder and decoder that
    plugins/kiss-cla/kiss_cla_plugin.cpp writes a second time. */
module Kiss {
  import opened Prelude

  const FEND: Byte := 0xC0
  const FESC: Byte := 0xDB
  const TFEND: Byte := 0xDC
  const TFESC: Byte := 0xDD
  const CMD_DATA_FRAME: Byte := 0x00

  datatype Error = FrameEmpty | FrameTooShort | InvalidEscape(follower: Byte) | TrailingEscape

  type Decoded = Result<Bytes, Error>

  // ---------------------------------------------------------------- escaping

  function EscapeByte(b: Byte): Bytes {
    if b == FEND then [FESC, TFEND] else if b == FESC then [FESC, TFESC] else [b]
  }

  function Escape(data: Bytes): Bytes {
    if data == [] then [] else EscapeByte(data[0]) + Escape(data[1..])
  }

  function Prepend(prefix: Bytes, r: Decoded): Decoded {
    match r
    case Ok(d) => Ok(prefix + d)
    case Err(_) => r
  }

  function Unescape(s: Bytes): Decoded {
    if s == [] then Ok([])
    else if s[0] != FESC then Prepend([s[0]], Unescape(s[1..]))
    else if |s| == 1 then Err(TrailingEscape)
    else if s[1] == TFEND then Prepend([FEND], Unescape(s[2..]))
    else if s[1] == TFESC then Prepend([FESC], Unescape(s[2..]))
    else Err(InvalidEscape(s[1]))
  }

  /** Transparency: the delimiter never occurs inside an escaped payload. */
  lemma {:induction false} EscapeHidesFend(data: Bytes)
    ensures FEND !in Escape(data)
  {
    if data != [] {
      EscapeHidesFend(data[1..]);
    }
  }

  /** The transparency rule byte by byte, and for whole payloads. */
  lemma EscapeTable(b: Byte)
    ensures Escape([b]) == if b == 0xC0 then [0xDB, 0xDC] else if b == 0xDB then [0xDB, 0xDD] else [b]
  {
    assert [b][1..] == [];
  }

  lemma {:induction false} EscapeConcat(a: Bytes, b: Bytes)
    ensures Escape(a + b) == Escape(a) + Escape(b)
  {
    if a == [] {
      assert a + b == b;
    } else {
      EscapeConcat(a[1..], b);
      assert (a + b)[1..] == a[1..] + b;
    }
  }

  /** Unescaping goes on where a valid prefix ends. */
  lemma {:induction false} UnescapeConcat(p: Bytes, t: Bytes)
    requires Unescape(p).Ok?
    ensures Unescape(p + t) == Prepend(Unescape(p).value, Unescape(t))
  {
    if p == [] {
      assert p + t == t;
      PrependNothing(Unescape(t));
    } else {
      var width := if p[0] == FESC then 2 else 1;
      UnescapeConcat(p[width..], t);
      assert (p + t)[width..] == p[width..] + t;
      var first := if p[0] != FESC then p[0] else if p[1] == TFEND then FEND else FESC;
      PrependTwice([first], Unescape(p[width..]).value, Unescape(t));
    }
  }

  /** A valid prefix, then the escape byte that ends the input or that a wrong byte follows. */
  predicate BreaksAt(s: Bytes, p: Bytes, follower: Option<Byte>) {
    && p <= s && Unescape(p).Ok?
    && match follower
       case None => s[|p|..] == [0xDB]
       case Some(b) => |s| >= |p| + 2 && s[|p|] == 0xDB && s[|p| + 1] == b && b != 0xDC && b != 0xDD
  }

  function ErrorAt(follower: Option<Byte>): Decoded {
    match follower
    case None => Err(TrailingEscape)
    case Some(b) => Err(InvalidEscape(b))
  }

  /** Unescaping fails exactly at such a place, and with its error. */
  lemma UnescapeFailsExactly(s: Bytes, follower: Option<Byte>)
    ensures Unescape(s) == ErrorAt(follower) <==> exists p :: BreaksAt(s, p, follower)
  {
    if Unescape(s) == ErrorAt(follower) {
      var p := BreakingPrefix(s, follower);
    }
    if exists p :: BreaksAt(s, p, follower) {
      var p :| BreaksAt(s, p, follower);
      assert s == p + s[|p|..];
      UnescapeConcat(p, s[|p|..]);
    }
  }

  lemma {:induction false} BreakingPrefix(s: Bytes, follower: Option<Byte>) returns (p: Bytes)
    requires Unescape(s) == ErrorAt(follower)
    ensures BreaksAt(s, p, follower)
  {
    if s[0] == FESC && (|s| == 1 || (s[1] != TFEND && s[1] != TFESC)) {
      p := [];
    } else {
      var width := if s[0] == FESC then 2 else 1;
      var rest := BreakingPrefix(s[width..], follower);
      p := s[..width] + rest;
      assert p[width..] == rest && s[|p|..] == s[width..][|rest|..];
    }
  }

  lemma {:induction false} UnescapeEscape(data: Bytes)
    ensures Unescape(Escape(data)) == Ok(data)
  {
    if data != [] {
      UnescapeEscape(data[1..]);
      var e, tail := Escape(data), Escape(data[1..]);
      if data[0] == FEND || data[0] == FESC {
        assert e[2..] == tail;
      } else {
        assert e[1..] == tail;
      }
      assert data == [data[0]] + data[1..];
    }
  }

  lemma {:induction false} EscapeUnescape(s: Bytes, data: Bytes)
    requires FEND !in s && Unescape(s) == Ok(data)
    ensures Escape(data) == s
  {
    if s != [] {
      var width := if s[0] == FESC then 2 else 1;
      EscapeUnescape(s[width..], data[1..]);
      assert s == s[..width] + s[width..];
      assert data[1..] == Unescape(s[width..]).value;
    }
  }

  /** On delimiter-free input the decoder accepts exactly the encoder's image,
      and inverts it there. */
  lemma UnescapeIsExactInverse(s: Bytes, data: Bytes)
    requires FEND !in s
    ensures Unescape(s) == Ok(data) <==> s == Escape(data)
  {
    UnescapeEscape(data);
    if Unescape(s) == Ok(data) {
      EscapeUnescape(s, data);
    }
  }

  // ----------------------------------------------------------------- framing

  function TrimLeft(s: Bytes): Bytes {
    if s != [] && s[0] == FEND then TrimLeft(s[1..]) else s
  }

  function TrimRight(s: Bytes): Bytes {
    if s != [] && s[|s| - 1] == FEND then TrimRight(s[..|s| - 1]) else s
  }

  /** What Decode yields for a raw frame: delimiters off, command byte off, unescape. */
  function DecodedFrame(frame: Bytes): Decoded {
    if |frame| < 3 then Err(FrameTooShort)
    else
      var body := TrimRight(TrimLeft(frame));
      if body == [] then Err(FrameEmpty) else Unescape(body[1..])
  }

  /** The bytes a frame puts on the wire for a given command byte. */
  function Encoded(cmd: Byte, data: Bytes): Bytes {
    [FEND] + ([cmd] + Escape(data)) + [FEND]
  }

  function Framed(body: Bytes): Bytes {
    [FEND] + body + [FEND]
  }

  predicate OnlyFends(s: Bytes) { forall i :: 0 <= i < |s| ==> s[i] == 0xC0 }

  lemma {:induction false} TrimLeftEmpty(s: Bytes)
    ensures TrimLeft(s) == [] <==> OnlyFends(s)
    ensures TrimLeft(s) == [] || TrimLeft(s)[0] != FEND
  {
    if s != [] && s[0] == FEND {
      TrimLeftEmpty(s[1..]);
      assert s == [s[0]] + s[1..];
    }
  }

  lemma {:induction false} TrimRightKeeps(s: Bytes)
    requires s != [] && s[0] != FEND
    ensures TrimRight(s) != []
  {
    if s[|s| - 1] == FEND {
      TrimRightKeeps(s[..|s| - 1]);
    }
  }

  /** A frame is too short below three bytes, and empty when it is nothing but delimiters. */
  lemma FrameErrorsExactly(frame: Bytes)
    ensures DecodedFrame(frame) == Err(FrameTooShort) <==> |frame| < 3
    ensures DecodedFrame(frame) == Err(FrameEmpty) <==> |frame| >= 3 && OnlyFends(frame)
  {
    TrimLeftEmpty(frame);
    if !OnlyFends(frame) {
      TrimRightKeeps(TrimLeft(frame));
      UnescapeErrorKinds(TrimRight(TrimLeft(frame))[1..]);
    } else {
      UnescapeErrorKinds([]);
    }
  }

  lemma UnescapeErrorKinds(s: Bytes)
    ensures Unescape(s) != Err(FrameTooShort) && Unescape(s) != Err(FrameEmpty)
  {
  }

  lemma DecodeFramed(body: Bytes)
    requires body != [] && FEND !in body
    ensures DecodedFrame(Framed(body)) == Unescape(body[1..])
  {
    var frame := Framed(body);
    assert frame[1..] == body + [FEND];
    assert frame[1] == body[0] != FEND;
    assert TrimLeft(frame) == frame[1..];
    assert frame[1..][..|body|] == body;
    assert TrimRight(frame[1..]) == TrimRight(body) == body;
  }

  method Encode(data: Bytes) returns (r: Decoded)
    ensures r == if data == [] then Err(FrameEmpty) else Ok(Encoded(CMD_DATA_FRAME, data))
  {
    if |data| == 0 {
      return Err(FrameEmpty);
    }
    var buf := EncodeWith(CMD_DATA_FRAME, data);
    r := Ok(buf);
  }

  /** The byte loop shared by the Go encoder and the plugin's KissEncode. */
  method EncodeWith(cmd: Byte, data: Bytes) returns (buf: Bytes)
    ensures buf == Encoded(cmd, data)
  {
    buf := [FEND];
    buf := buf + [cmd];
    for i := 0 to |data|
      invariant [FEND, cmd] + Escape(data) == buf + Escape(data[i..])
    {
      var b := data[i];
      assert data[i..][1..] == data[i + 1..];
      assert buf + Escape(data[i..]) == buf + EscapeByte(b) + Escape(data[i + 1..]);
      if b == FEND {
        buf := buf + [FESC, TFEND];
      } else if b == FESC {
        buf := buf + [FESC, TFESC];
      } else {
        buf := buf + [b];
      }
    }
    assert buf + Escape(data[|data|..]) == buf;
    assert [FEND, cmd] + Escape(data) == [FEND] + ([cmd] + Escape(data));
    buf := buf + [FEND];
  }

  method Decode(frame: Bytes) returns (r: Decoded)
    ensures r == DecodedFrame(frame)
  {
    if |frame| < 3 {
      return Err(FrameTooShort);
    }
    var start, end := StripDelimiters(frame);
    if start > end {
      return Err(FrameEmpty);
    }
    assert frame[start..end + 1][1..] == frame[start + 1..end + 1];
    r := UnescapeLoop(frame[start + 1..end + 1]);
  }

  lemma TrimOneLeft(s: Bytes)
    ensures TrimLeft(s) == if s != [] && s[0] == FEND then TrimLeft(s[1..]) else s
  {
  }

  lemma TrimOneRight(s: Bytes)
    ensures TrimRight(s) == if s != [] && s[|s| - 1] == FEND then TrimRight(s[..|s| - 1]) else s
  {
  }

  /** The cursors of the first and last byte between the delimiters. */
  method StripDelimiters(frame: Bytes) returns (start: nat, end: nat)
    requires frame != []
    ensures if TrimRight(TrimLeft(frame)) == [] then start == end + 1 == |frame|
            else start <= end < |frame| && frame[start..end + 1] == TrimRight(TrimLeft(frame))
  {
    hide TrimLeft, TrimRight;
    start := 0;
    assert frame[0..] == frame;
    while start < |frame| && frame[start] == FEND
      invariant start <= |frame|
      invariant TrimLeft(frame) == TrimLeft(frame[start..])
    {
      TrimOneLeft(frame[start..]);
      assert frame[start..][1..] == frame[start + 1..];
      start := start + 1;
    }
    end := |frame| - 1;
    ghost var body := frame[start..];
    TrimOneLeft(body);
    TrimOneRight(body);
    assert body == TrimLeft(frame);
    assert body[..end + 1 - start] == body;
    while end > start && frame[end] == FEND
      invariant start == |frame| ==> end == |frame| - 1
      invariant start < |frame| ==> start <= end < |frame|
      invariant start < |frame| ==> TrimRight(body) == TrimRight(body[..end + 1 - start])
    {
      TrimOneRight(body[..end + 1 - start]);
      assert body[..end + 1 - start][..end - start] == body[..end - start];
      end := end - 1;
    }
    if start < |frame| {
      TrimOneRight(body[..end + 1 - start]);
      assert body[..end + 1 - start] == frame[start..end + 1];
    }
  }

  /** The unescaping byte loop with its `escaped` flag. */
  method UnescapeLoop(s: Bytes) returns (r: Decoded)
    ensures r == Unescape(s)
  {
    var buf: Bytes := [];
    var escaped := false;
    assert Pending(false) + s[0..] == s;
    PrependNothing(Unescape(s));
    for i := 0 to |s|
      invariant Unescape(s) == Prepend(buf, Unescape(Pending(escaped) + s[i..]))
    {
      var b := s[i];
      assert s[i..] == [b] + s[i + 1..];
      UnescapeStep(buf, escaped, b, s[i + 1..]);
      if escaped {
        if b == TFEND {
          buf := buf + [FEND];
        } else if b == TFESC {
          buf := buf + [FESC];
        } else {
          return Err(InvalidEscape(b));
        }
        escaped := false;
      } else if b == FESC {
        escaped := true;
      } else {
        buf := buf + [b];
      }
    }
    if escaped {
      assert Pending(true) + s[|s|..] == [FESC];
      return Err(TrailingEscape);
    }
    assert Pending(false) + s[|s|..] == [] && buf + [] == buf;
    r := Ok(buf);
  }

  /** The escape byte the loop has consumed but not yet acted on. */
  ghost function Pending(escaped: bool): Bytes {
    if escaped then [FESC] else []
  }

  lemma PrependTwice(a: Bytes, b: Bytes, r: Decoded)
    ensures Prepend(a, Prepend(b, r)) == Prepend(a + b, r)
  {
    if r.Ok? {
      assert a + (b + r.value) == a + b + r.value;
    }
  }

  lemma PrependNothing(r: Decoded)
    ensures Prepend([], r) == r
  {
    if r.Ok? {
      assert [] + r.value == r.value;
    }
  }

  /** One iteration: what is still to be decoded, before and after byte b. */
  lemma UnescapeStep(buf: Bytes, escaped: bool, b: Byte, tail: Bytes)
    ensures Prepend(buf, Unescape(Pending(escaped) + ([b] + tail))) ==
            if escaped then
              if b == TFEND then Prepend(buf + [FEND], Unescape(Pending(false) + tail))
              else if b == TFESC then Prepend(buf + [FESC], Unescape(Pending(false) + tail))
              else Err(InvalidEscape(b))
            else if b == FESC then Prepend(buf, Unescape(Pending(true) + tail))
            else Prepend(buf + [b], Unescape(Pending(false) + tail))
  {
    var todo := Pending(escaped) + ([b] + tail);
    var rest := Unescape(tail);
    assert Pending(false) + tail == tail;
    if escaped {
      assert todo[0] == FESC && todo[1] == b && todo[2..] == tail;
      PrependTwice(buf, [FEND], rest);
      PrependTwice(buf, [FESC], rest);
    } else {
      assert todo == [b] + tail && todo[1..] == tail;
      PrependTwice(buf, [b], rest);
    }
  }

  /** Encode then Decode is the identity on every payload Encode accepts. */
  lemma RoundTrip(data: Bytes)
    ensures DecodedFrame(Encoded(CMD_DATA_FRAME, data)) == Ok(data)
  {
    PortRoundTrip(CMD_DATA_FRAME, data);
  }

  lemma PortRoundTrip(cmd: Byte, data: Bytes)
    requires cmd != FEND
    ensures DecodedFrame(Encoded(cmd, data)) == Ok(data)
  {
    var body := [cmd] + Escape(data);
    EscapeHidesFend(data);
    UnescapeEscape(data);
    assert body[1..] == Escape(data);
    DecodeFramed(body);
  }

  // ------------------------------------------- the plugin's port in the command byte

  /** `(kiss_port_ & 0x0F) << 4`; the mask keeps the low four bits of either sign. */
  function PortCommand(kissPort: int): Byte {
    (kissPort % 16) * 16
  }

  /** The port travels in the high nibble. */
  lemma PortCommandMeans(kissPort: int)
    ensures PortCommand(kissPort) / 16 == kissPort % 16 && PortCommand(kissPort) % 16 == 0
    ensures PortCommand(0) == CMD_DATA_FRAME == 0
  {
  }

  /** The plugin's KissEncode is inverted by its KissDecode for every port whose low
      nibble is not 12, and for no payload at all on the others: there the command
      byte is itself the delimiter, and the first payload byte is taken for the command. */
  lemma PluginRoundTripExactly(kissPort: int, data: Bytes)
    ensures DecodedFrame(Encoded(PortCommand(kissPort), data)) == Ok(data)
            <==> kissPort % 16 != 12
  {
    var cmd := PortCommand(kissPort);
    assert cmd == FEND <==> kissPort % 16 == 12;
    if cmd != FEND {
      PortRoundTrip(cmd, data);
    } else {
      DelimiterCommandNeverDecodes(data);
    }
  }

  /** With the delimiter as command byte the frame reads as one whose command byte is the
      first byte of the escaped payload. */
  lemma DelimiterCommandNeverDecodes(data: Bytes)
    ensures DecodedFrame(Encoded(FEND, data)) != Ok(data)
  {
    hide Unescape;
    var frame, body := Encoded(FEND, data), Escape(data);
    assert frame[1..] == Framed(body);
    assert TrimLeft(frame) == TrimLeft(Framed(body));
    if data == [] {
      assert Framed(body) == [FEND, FEND];
      assert [FEND, FEND][1..] == [FEND] && [FEND][1..] == [];
      assert TrimLeft([FEND, FEND]) == TrimLeft([FEND]) == [];
    } else {
      EscapeHidesFend(data);
      DecodeFramed(body);
      FirstByteIsLost(data);
    }
  }

  lemma FirstByteIsLost(data: Bytes)
    requires data != []
    ensures Unescape(Escape(data)[1..]) != Ok(data)
  {
    hide Unescape;
    var body, tail := Escape(data), Escape(data[1..]);
    UnescapeEscape(data[1..]);
    if data[0] == FEND || data[0] == FESC {
      assert body[1..] == [body[1]] + tail;
      UnescapePlain(body[1], tail);
      assert ([body[1]] + data[1..])[0] != data[0];
    } else {
      assert body[1..] == tail;
    }
  }

  lemma UnescapePlain(b: Byte, tail: Bytes)
    requires b != FESC
    ensures Unescape([b] + tail) == Prepend([b], Unescape(tail))
  {
    assert ([b] + tail)[1..] == tail;
  }
}
