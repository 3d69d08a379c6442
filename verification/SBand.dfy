/** The S-band bundle codec and the whole transmit-receive chain (pkg/cla/sband_iq/sband_iq.go).
    A Go string is a byte string: each char of a string here stands for one byte. */
module SBand {
  import opened Prelude
  import opened Bpa
  import opened Iq
  import opened IqBits
  import opened Bpsk

  predicate IsByteString(s: string) {
    forall i :: 0 <= i < |s| ==> s[i] as int < 256
  }

  function ToBytes(s: string): (r: Bytes)
    requires IsByteString(s)
    ensures |r| == |s|
  {
    seq(|s|, i requires 0 <= i < |s| => s[i] as int)
  }

  function FromBytes(bytes: Bytes): (s: string)
    ensures |s| == |bytes|
  {
    seq(|bytes|, i requires 0 <= i < |bytes| => bytes[i] as char)
  }

  lemma BytesRoundTrip(s: string)
    requires IsByteString(s)
    ensures FromBytes(ToBytes(s)) == s
  {
  }

  // -------------------------------------------------------------- the lifetime field

  /** `n >> (8 * i)`, the arithmetic shift: i times divided by 256, rounding down. */
  function ShiftRight(n: int, i: nat): int {
    if i == 0 then n else ShiftRight(n, i - 1) / 256
  }

  /** 256 to the power i. */
  function Pow256(i: nat): (p: nat)
    ensures p > 0
  {
    if i == 0 then 1 else 256 * Pow256(i - 1)
  }

  /** Little-endian value, unsigned. */
  function Value(bytes: Bytes): nat {
    if bytes == [] then 0
    else Value(bytes[..|bytes| - 1]) + bytes[|bytes| - 1] * Pow256(|bytes| - 1)
  }

  function LifetimeBytes(n: int): (r: Bytes)
    ensures |r| == 8
  {
    seq(8, i requires 0 <= i < 8 => ShiftRight(n, i) % 256)
  }

  /** Eight bytes as a number, the first the least significant. */
  function LittleEndian(b: seq<int>): int
    requires |b| == 8
  {
    b[0] + 0x100 * b[1] + 0x1_0000 * b[2] + 0x100_0000 * b[3] + 0x1_0000_0000 * b[4]
    + 0x100_0000_0000 * b[5] + 0x1_0000_0000_0000 * b[6] + 0x100_0000_0000_0000 * b[7]
  }

  /** The lifetime is written little-endian, a negative one as its two's complement. */
  lemma LifetimeLayout(n: int)
    requires IsInt64(n)
    ensures LittleEndian(LifetimeBytes(n)) == if n >= 0 then n else n + 0x1_0000_0000_0000_0000
  {
    hide LifetimeBytes, Value, LittleEndian;
    var bytes := LifetimeBytes(n);
    LifetimeRoundTrip(n);
    ValueBound(bytes);
    Pow256Eight();
    ValueIsLittleEndian(bytes);
  }

  lemma ValueIsLittleEndian(b: Bytes)
    requires |b| == 8
    ensures Value(b) == LittleEndian(b)
  {
    PowersOf256();
    ValueSnoc(b, 8);
    ValueSnoc(b, 7);
    ValueSnoc(b, 6);
    ValueSnoc(b, 5);
    ValueSnoc(b, 4);
    ValueSnoc(b, 3);
    ValueSnoc(b, 2);
    ValueSnoc(b, 1);
    hide Value, Pow256;
    assert b[..8] == b && b[..0] == [];
    NoValue();
  }

  lemma NoValue()
    ensures Value([]) == 0
  {
  }

  lemma ValueSnoc(b: Bytes, i: nat)
    requires 0 < i <= |b|
    ensures Value(b[..i]) == Value(b[..i - 1]) + b[i - 1] * Pow256(i - 1)
  {
    assert b[..i][..i - 1] == b[..i - 1];
  }

  lemma PowersOf256()
    ensures Pow256(0) == 1 && Pow256(1) == 0x100 && Pow256(2) == 0x1_0000 && Pow256(3) == 0x100_0000
    ensures Pow256(4) == 0x1_0000_0000 && Pow256(5) == 0x100_0000_0000
    ensures Pow256(6) == 0x1_0000_0000_0000 && Pow256(7) == 0x100_0000_0000_0000
  {
    assert Pow256(3) == 256 * Pow256(2) && Pow256(5) == 256 * Pow256(4);
  }

  /** The digits written so far and what is still above them make up the number. */
  lemma {:induction false} DigitsSum(n: int, i: nat)
    requires i <= 8
    ensures n == Value(LifetimeBytes(n)[..i]) + ShiftRight(n, i) * Pow256(i)
  {
    if i > 0 {
      DigitsSum(n, i - 1);
      var bytes, q, p := LifetimeBytes(n), ShiftRight(n, i - 1), Pow256(i - 1);
      ValueSnoc(bytes, i);
      SplitDigit(q, p);
    }
  }

  lemma SplitDigit(q: int, p: nat)
    ensures q * p == (q / 256) * (256 * p) + (q % 256) * p
  {
    var high, low := q / 256, q % 256;
    assert q == 256 * high + low;
    assert (256 * high + low) * p == (256 * high) * p + low * p;
    assert (256 * high) * p == high * (256 * p);
  }

  lemma {:induction false} ValueBound(bytes: Bytes)
    ensures Value(bytes) < Pow256(|bytes|)
  {
    if bytes != [] {
      var n := |bytes| - 1;
      ValueBound(bytes[..n]);
      AddDigit(Value(bytes[..n]), bytes[n], Pow256(n));
    }
  }

  lemma AddDigit(v: nat, b: Byte, p: nat)
    requires v < p
    ensures v + b * p < 256 * p && b * p <= 255 * p
  {
    assert (255 - b) * p >= 0;
    assert (255 - b) * p == 255 * p - b * p;
  }

  lemma Pow256Eight()
    ensures Pow256(8) == 0x1_0000_0000_0000_0000 && Pow256(7) == 0x100_0000_0000_0000
  {
    assert Pow256(1) == 256 && Pow256(2) == 65536;
    assert Pow256(3) == 0x100_0000 && Pow256(4) == 0x1_0000_0000;
    assert Pow256(5) == 0x100_0000_0000 && Pow256(6) == 0x1_0000_0000_0000;
  }

  /** Reading the eight bytes back as a signed number returns every int64. */
  lemma LifetimeRoundTrip(n: int)
    requires IsInt64(n)
    ensures Wrap64(Value(LifetimeBytes(n))) == n
  {
    var bytes, q := LifetimeBytes(n), ShiftRight(n, 8);
    DigitsSum(n, 8);
    assert bytes[..8] == bytes;
    ValueBound(bytes);
    Pow256Eight();
    assert n == Value(bytes) + q * 0x1_0000_0000_0000_0000;
  }

  // ------------------------------------------------------------------------ the codec

  function TypeCode(t: BundleType): int {
    match t
    case DataBundle => 0
    case PingRequest => 1
    case PingResponse => 2
    case OtherType(code) => code
  }

  function TypeOf(code: Byte): BundleType {
    if code == 0 then DataBundle
    else if code == 1 then PingRequest
    else if code == 2 then PingResponse
    else OtherType(code)
  }

  function Serialized(b: Bundle): Bytes
    requires IsByteString(b.destination.Print())
  {
    var dest := ToBytes(b.destination.Print());
    [TypeCode(b.bundleType) % 256, b.priority % 256] + LifetimeBytes(b.lifetime)
    + [|dest| % 256] + dest + b.payload
  }

  datatype CodecError = DataTooShort | DestinationTooShort | FrameTooShort

  const NO_SOURCE := EndpointID("ipn", "0.0")

  function Deserialized(data: Bytes): Result<Bundle, CodecError> {
    if |data| < 11 then Err(DataTooShort)
    else
      var end := 11 + (data[10] as int);
      if |data| < end then Err(DestinationTooShort)
      else Ok(Bundle(BundleID(NO_SOURCE, 0, 0), EndpointID("ipn", FromBytes(data[11..end])), data[end..],
                     data[1], Wrap64(Value(data[2..10])), 0, TypeOf(data[0])))
  }

  method SerializeBundle(b: Bundle) returns (data: Bytes)
    requires IsByteString(b.destination.Print())
    ensures data == Serialized(b)
  {
    data := [TypeCode(b.bundleType) % 256, b.priority % 256];
    var lifetimeBytes := new Byte[8](_ => 0);
    var shifted := b.lifetime;
    for i := 0 to 8
      invariant shifted == ShiftRight(b.lifetime, i)
      invariant forall k :: 0 <= k < i ==> lifetimeBytes[k] == ShiftRight(b.lifetime, k) % 256
    {
      lifetimeBytes[i] := shifted % 256;
      shifted := shifted / 256;
    }
    assert lifetimeBytes[..] == LifetimeBytes(b.lifetime);
    data := data + lifetimeBytes[..];
    var destBytes := ToBytes(b.destination.Print());
    data := data + [|destBytes| % 256];
    data := data + destBytes;
    data := data + b.payload;
  }

  /** The accumulation loop; each byte lands on bits that are still clear, so `|=` adds. */
  method ReadLifetime(bytes: Bytes) returns (lifetime: int)
    requires |bytes| == 8
    ensures lifetime == Wrap64(Value(bytes))
  {
    lifetime := 0;
    for i := 0 to 8
      invariant lifetime == Wrap64(Value(bytes[..i]))
      invariant i < 8 ==> lifetime == Value(bytes[..i])
    {
      ReadStep(bytes, i);
      lifetime := lifetime + Wrap64(bytes[i] * Pow256(i));
    }
    assert bytes[..8] == bytes;
  }

  lemma ReadStep(bytes: Bytes, i: nat)
    requires |bytes| == 8 && i < 8
    ensures Value(bytes[..i]) + Wrap64(bytes[i] * Pow256(i)) == Wrap64(Value(bytes[..i + 1]))
    ensures i < 7 ==> Wrap64(Value(bytes[..i + 1])) == Value(bytes[..i + 1])
  {
    var v, b, p := Value(bytes[..i]), bytes[i], Pow256(i);
    assert bytes[..i + 1][..i] == bytes[..i];
    assert Value(bytes[..i + 1]) == v + b * p;
    ValueBound(bytes[..i]);
    AddDigit(v, b, p);
    Pow256Eight();
    if i < 7 {
      PowMonotone(i + 1);
    }
  }

  lemma PowMonotone(i: nat)
    requires i <= 7
    ensures Pow256(i) <= 0x100_0000_0000_0000
    decreases 7 - i
  {
    Pow256Eight();
    if i < 7 {
      PowMonotone(i + 1);
    }
  }

  method DeserializeBundle(data: Bytes) returns (r: Result<Bundle, CodecError>)
    ensures r == Deserialized(data)
  {
    if |data| < 11 {
      return Err(DataTooShort);
    }
    var lifetime := ReadLifetime(data[2..10]);
    var destLen: int := data[10];
    if |data| < 11 + destLen {
      return Err(DestinationTooShort);
    }
    var destStr := FromBytes(data[11..11 + destLen]);
    r := Ok(Bundle(BundleID(NO_SOURCE, 0, 0), EndpointID("ipn", destStr), data[11 + destLen..],
                   data[1], lifetime, 0, TypeOf(data[0])));
  }

  /** What parses, and as what: eleven bytes and the announced destination must be there; the
      rest is payload. */
  lemma ParsesExactly(data: Bytes)
    ensures Deserialized(data).Ok? <==> |data| >= 11 && |data| - 11 >= data[10]
    ensures Deserialized(data) == Err(DataTooShort) <==> |data| < 11
    ensures Deserialized(data).Ok? ==>
              var b, n := Deserialized(data).value, data[10] as int;
              && b.bundleType == (match data[0]
                                  case 0 => DataBundle case 1 => PingRequest case 2 => PingResponse
                                  case c => OtherType(c))
              && b.priority == data[1] && b.payload == data[11 + n..] && b.createdAt == 0
              && b.destination.scheme == "ipn" && |b.destination.ssp| == n
              && (forall i :: 0 <= i < n ==> b.destination.ssp[i] as int == data[11 + i])
    ensures Deserialized(data).Ok? ==>
              var raw := LittleEndian(data[2..10]);
              Deserialized(data).value.lifetime
              == if raw < 0x8000_0000_0000_0000 then raw else raw - 0x1_0000_0000_0000_0000
  {
    hide LittleEndian;
    if Deserialized(data).Ok? {
      ValueIsLittleEndian(data[2..10]);
      ValueBound(data[2..10]);
      Pow256Eight();
    }
  }

  /** The ranges of the Go types: an int64 lifetime, a byte string. */
  predicate IsRepresentable(b: Bundle) {
    IsInt64(b.lifetime) && IsByteString(b.destination.Print())
  }

  /** The type and priority that one byte each can carry: the three known types, or another
      code from 3 to 255. */
  predicate HeaderFits(b: Bundle) {
    && (b.bundleType == DataBundle || b.bundleType == PingRequest || b.bundleType == PingResponse ||
        exists c :: 3 <= c < 256 && b.bundleType == OtherType(c))
    && 0 <= b.priority < 256
  }

  /** What arrives: type and priority modulo 256; the lifetime; a fresh identity; and the printed
      destination split at its length modulo 256, the part past it going into the payload. */
  function Arrived(b: Bundle): Bundle
    requires IsRepresentable(b)
  {
    var printed := b.destination.Print();
    var k := |printed| % 256;
    Bundle(BundleID(NO_SOURCE, 0, 0), EndpointID("ipn", printed[..k]), ToBytes(printed)[k..] + b.payload,
           b.priority % 256, b.lifetime, 0, TypeOf(TypeCode(b.bundleType) % 256))
  }

  lemma DeserializeSerialize(b: Bundle)
    requires IsRepresentable(b)
    ensures Deserialized(Serialized(b)) == Ok(Arrived(b))
  {
    var data, printed := Serialized(b), b.destination.Print();
    var dest, life := ToBytes(printed), LifetimeBytes(b.lifetime);
    var k := |printed| % 256;
    LifetimeRoundTrip(b.lifetime);
    SerializedParts(b);
    assert FromBytes(dest[..k]) == FromBytes(dest)[..k];
    BytesRoundTrip(printed);
  }

  /** Where each field lies in the serialised bytes. */
  lemma SerializedParts(b: Bundle)
    requires IsRepresentable(b)
    ensures var data, dest := Serialized(b), ToBytes(b.destination.Print());
            var k := |dest| % 256;
            && |data| == 11 + |dest| + |b.payload|
            && data[0] == TypeCode(b.bundleType) % 256 && data[1] == b.priority % 256 && data[10] == k
            && data[2..10] == LifetimeBytes(b.lifetime)
            && data[11..11 + k] == dest[..k] && data[11 + k..] == dest[k..] + b.payload
  {
    hide ToBytes, LifetimeBytes;
    var dest, life := ToBytes(b.destination.Print()), LifetimeBytes(b.lifetime);
    var head := [TypeCode(b.bundleType) % 256, b.priority % 256];
    var data := head + life + [|dest| % 256] + dest + b.payload;
    assert data == (head + life + [|dest| % 256]) + (dest + b.payload);
    assert data == head + (life + ([|dest| % 256] + dest + b.payload));
  }

  /** The type byte on the wire. */
  lemma TypeByte(b: Bundle)
    requires IsRepresentable(b)
    ensures b.bundleType == DataBundle ==> Serialized(b)[0] == 0
    ensures b.bundleType == PingRequest ==> Serialized(b)[0] == 1
    ensures b.bundleType == PingResponse ==> Serialized(b)[0] == 2
    ensures forall c :: b.bundleType == OtherType(c) ==> Serialized(b)[0] == c % 256
  {
    SerializedParts(b);
  }

  /** Type and priority arrive intact exactly when each fits its byte. */
  lemma TypeAndPriorityExactly(b: Bundle)
    requires IsRepresentable(b)
    ensures Arrived(b).bundleType == b.bundleType && Arrived(b).priority == b.priority <==> HeaderFits(b)
  {
  }

  /** Endpoint and payload arrive intact exactly when the printed endpoint has at most 255 bytes. */
  lemma DestinationAndPayloadExactly(b: Bundle)
    requires IsRepresentable(b)
    ensures Arrived(b).destination.ssp == b.destination.Print() && Arrived(b).payload == b.payload
            <==> |b.destination.Print()| <= 255
  {
    var printed := b.destination.Print();
    if |printed| <= 255 {
      assert printed[..|printed|] == printed;
      assert ToBytes(printed)[|printed|..] + b.payload == b.payload;
    }
  }

  /** The destination endpoint never survives: its scheme is folded into the new SSP. */
  lemma DestinationNeverSurvives(b: Bundle)
    requires IsRepresentable(b)
    ensures Arrived(b).destination != b.destination
  {
    var n := |b.destination.Print()|;
    assert n == |b.destination.scheme| + 3 + |b.destination.ssp|;
    if b.destination.scheme == "ipn" {
      assert n % 256 == n - 6 ==> false by {
        assert (n - n % 256) % 256 == 0;
      }
    }
  }

  // ------------------------------------------------------------------------- framing

  function Header(callsign: string): Bytes
    requires IsByteString(callsign)
  {
    [65, 88, 50, 53, 58] + ToBytes(callsign) + [62]
  }

  /** The header reads `AX25:<call sign>>`. */
  lemma HeaderReads(callsign: string)
    requires IsByteString(callsign)
    ensures FromBytes(Header(callsign)) == "AX25:" + callsign + ">"
  {
  }

  method CreateAX25Frame(callsign: string, payload: Bytes) returns (frame: Bytes)
    requires IsByteString(callsign)
    ensures frame == Header(callsign) + payload
  {
    var header := [65, 88, 50, 53, 58] + ToBytes(callsign) + [62];
    frame := header + payload;
  }

  /** Only the length of the header is checked, not its content. */
  function Extracted(callsign: string, frame: Bytes): Result<Bytes, CodecError> {
    var headerLen := |callsign| + 6;
    if |frame| < headerLen then Err(FrameTooShort) else Ok(frame[headerLen..])
  }

  method ExtractAX25Frame(callsign: string, frame: Bytes) returns (r: Result<Bytes, CodecError>)
    ensures r == Extracted(callsign, frame)
  {
    var headerLen := |"AX25:" + callsign + ">"|;
    if |frame| < headerLen {
      return Err(FrameTooShort);
    }
    r := Ok(frame[headerLen..]);
  }

  /** Unwrapping undoes wrapping, and accepts any other header of the same length as well: a
      frame yields p exactly when it is p behind a header's worth of bytes. */
  lemma ExtractedExactly(callsign: string, frame: Bytes, p: Bytes)
    ensures Extracted(callsign, frame) == Ok(p) <==>
            exists h: Bytes :: IsWrapped(callsign, frame, h, p)
    ensures IsByteString(callsign) ==> Extracted(callsign, Header(callsign) + p) == Ok(p)
  {
    var n := |callsign| + 6;
    if Extracted(callsign, frame) == Ok(p) {
      assert IsWrapped(callsign, frame, frame[..n], p);
    }
    if IsByteString(callsign) {
      assert (Header(callsign) + p)[n..] == p;
    }
  }

  predicate IsWrapped(callsign: string, frame: Bytes, h: Bytes, p: Bytes) {
    |h| == |callsign| + 6 && frame == h + p
  }

  // ------------------------------------------------------------------ the whole chain

  datatype LinkError =
    | AlreadyOpen
    | NotOpen
    | TransceiverFailed
    | BadFrame(cause: CodecError)

  function Outcome(r: Result<Bundle, CodecError>): Result<Bundle, LinkError> {
    match r
    case Ok(b) => Ok(b)
    case Err(e) => Err(BadFrame(e))
  }

  datatype Status = Idle | Transmitting | Receiving | Faulty

  /** One call on the radio, with its answer. */
  datatype RadioCall =
    | Opened(ok: bool)
    | Started(ok: bool)
    | Stopped(ok: bool)
    | Closed(ok: bool)
    | Transmitted(samples: seq<IQSample>, ok: bool)
    | HandedOver(buffer: Option<seq<IQSample>>)

  /** The radio: any answer is possible at any time, and is on record. */
  class Transceiver {
    ghost var calls: seq<RadioCall>

    constructor ()
      ensures calls == []
    {
      calls := [];
    }

    method Open() returns (ok: bool)
      modifies this
      ensures calls == old(calls) + [Opened(ok)]
    {
      ok := *;
      calls := calls + [Opened(ok)];
    }

    method StartStreaming() returns (ok: bool)
      modifies this
      ensures calls == old(calls) + [Started(ok)]
    {
      ok := *;
      calls := calls + [Started(ok)];
    }

    method StopStreaming() returns (ok: bool)
      modifies this
      ensures calls == old(calls) + [Stopped(ok)]
    {
      ok := *;
      calls := calls + [Stopped(ok)];
    }

    method Close() returns (ok: bool)
      modifies this
      ensures calls == old(calls) + [Closed(ok)]
    {
      ok := *;
      calls := calls + [Closed(ok)];
    }

    method Transmit(samples: seq<IQSample>) returns (ok: bool)
      modifies this
      ensures calls == old(calls) + [Transmitted(samples, ok)]
    {
      ok := *;
      calls := calls + [Transmitted(samples, ok)];
    }

    method Receive() returns (samples: Option<seq<IQSample>>)
      modifies this
      ensures calls == old(calls) + [HandedOver(samples)]
    {
      samples := *;
      calls := calls + [HandedOver(samples)];
    }
  }

  /** The calls that bring the radio up, and those of an attempt that fails: a radio that opens
      but does not stream is closed again. */
  predicate BringsUp(calls: seq<RadioCall>, up: bool) {
    if up then calls == [Opened(true), Started(true)]
    else
      calls == [Opened(false)] ||
      calls == [Opened(true), Started(false), Closed(true)] || calls == [Opened(true), Started(false), Closed(false)]
  }

  predicate TakesDown(calls: seq<RadioCall>, down: bool) {
    if down then calls == [Stopped(true), Closed(true)]
    else calls == [Stopped(false)] || calls == [Stopped(true), Closed(false)]
  }

  class SBandIQCLA {
    const trig: Trig
    const callsign: string
    const samplesPerSym: nat
    const transceiver: Transceiver
    var isOpen: bool
    var status: Status
    var bytesTransferred: nat

    constructor (trig: Trig, callsign: string, samplesPerSym: nat, transceiver: Transceiver)
      requires trig.Lawful() && IsByteString(callsign) && samplesPerSym > 0
      ensures this.trig == trig && this.callsign == callsign && this.samplesPerSym == samplesPerSym
      ensures this.transceiver == transceiver
      ensures Valid() && !isOpen && status == Idle && bytesTransferred == 0
    {
      this.trig, this.callsign, this.samplesPerSym, this.transceiver := trig, callsign, samplesPerSym, transceiver;
      isOpen, status, bytesTransferred := false, Idle, 0;
    }

    /** An open link between calls is idle or faulty. */
    ghost predicate Valid()
      reads this
    {
      trig.Lawful() && IsByteString(callsign) && samplesPerSym > 0 && (status == Idle || status == Faulty)
    }

    method Open() returns (r: Result<(), LinkError>)
      requires Valid()
      modifies this, transceiver
      ensures Valid() && bytesTransferred == old(bytesTransferred) && old(transceiver.calls) <= transceiver.calls
      ensures old(isOpen) ==> r == Err(AlreadyOpen) && transceiver.calls == old(transceiver.calls)
      ensures !old(isOpen) ==> BringsUp(transceiver.calls[|old(transceiver.calls)|..], r.Ok?)
      ensures r.Ok? ==> isOpen && status == Idle
      ensures r.Err? ==> isOpen == old(isOpen) && status == old(status)
    {
      if isOpen {
        return Err(AlreadyOpen);
      }
      var on := transceiver.Open();
      if !on {
        return Err(TransceiverFailed);
      }
      on := transceiver.StartStreaming();
      if !on {
        var _ := transceiver.Close();
        return Err(TransceiverFailed);
      }
      isOpen, status := true, Idle;
      r := Ok(());
    }

    method Close() returns (r: Result<(), LinkError>)
      requires Valid()
      modifies this, transceiver
      ensures Valid() && bytesTransferred == old(bytesTransferred) && old(transceiver.calls) <= transceiver.calls
      ensures !old(isOpen) ==> r.Ok? && transceiver.calls == old(transceiver.calls)
      ensures old(isOpen) ==> TakesDown(transceiver.calls[|old(transceiver.calls)|..], r.Ok?)
      ensures r.Ok? ==> !isOpen && (old(isOpen) ==> status == Idle)
      ensures r.Err? ==> isOpen && status == old(status)
    {
      if !isOpen {
        return Ok(());
      }
      var off := transceiver.StopStreaming();
      if !off {
        return Err(TransceiverFailed);
      }
      off := transceiver.Close();
      if !off {
        return Err(TransceiverFailed);
      }
      isOpen, status := false, Idle;
      r := Ok(());
    }

    /** Serialise, wrap, modulate; the transceiver is given exactly that waveform, once. */
    method SendBundle(b: Bundle) returns (r: Result<(), LinkError>)
      requires Valid() && IsByteString(b.destination.Print())
      modifies this, transceiver
      ensures Valid() && isOpen == old(isOpen)
      ensures !isOpen ==> r == Err(NotOpen) && status == old(status) && transceiver.calls == old(transceiver.calls)
      ensures isOpen ==>
                && transceiver.calls == old(transceiver.calls)
                   + [Transmitted(Waveform(BytesToBits(Header(callsign) + Serialized(b)), samplesPerSym), r.Ok?)]
                && (r == Ok(()) || r == Err(TransceiverFailed))
                && status == (if r.Ok? then Idle else Faulty)
      ensures bytesTransferred == old(bytesTransferred) + if r.Ok? then |Serialized(b)| else 0
    {
      if !isOpen {
        return Err(NotOpen);
      }
      status := Transmitting;
      var data := SerializeBundle(b);
      var frame := CreateAX25Frame(callsign, data);
      var buffer := ModulateBPSK(trig, frame, samplesPerSym);
      var ok := transceiver.Transmit(buffer);
      if !ok {
        status := Faulty;
        return Err(TransceiverFailed);
      }
      bytesTransferred := bytesTransferred + |data|;
      status := Idle;
      r := Ok(());
    }

    /** Demodulate, unwrap and deserialise what the transceiver hands over. */
    method RecvBundle() returns (r: Result<Bundle, LinkError>, ghost samples: Option<seq<IQSample>>)
      requires Valid()
      modifies this, transceiver
      ensures Valid() && isOpen == old(isOpen)
      ensures !isOpen ==> r == Err(NotOpen) && status == old(status) && transceiver.calls == old(transceiver.calls)
      ensures isOpen ==> transceiver.calls == old(transceiver.calls) + [HandedOver(samples)]
      ensures isOpen && samples.None? ==> r == Err(TransceiverFailed) && status == Idle
      ensures isOpen && samples.Some? ==>
                && r == Outcome(Received(callsign, samples.value, samplesPerSym))
                && status == (if r.Ok? then Idle else Faulty)
      ensures bytesTransferred == old(bytesTransferred)
              + if r.Ok? then |BitsToBytes(Decisions(samples.value, samplesPerSym))| else 0
    {
      samples := None;
      if !isOpen {
        return Err(NotOpen), samples;
      }
      status := Receiving;
      var buffer := transceiver.Receive();
      samples := buffer;
      if buffer.None? {
        status := Idle;
        return Err(TransceiverFailed), samples;
      }
      var data := DemodulateBPSK(buffer.value, samplesPerSym);
      var payload := ExtractAX25Frame(callsign, data);
      if payload.Err? {
        status := Faulty;
        return Err(BadFrame(payload.error)), samples;
      }
      var bundle := DeserializeBundle(payload.value);
      if bundle.Err? {
        status := Faulty;
        return Err(BadFrame(bundle.error)), samples;
      }
      bytesTransferred := bytesTransferred + |data|;
      status := Idle;
      r := Ok(bundle.value);
    }
  }

  function Received(callsign: string, samples: seq<IQSample>, samplesPerSym: nat): Result<Bundle, CodecError>
    requires samplesPerSym > 0
  {
    var payload := Extracted(callsign, BitsToBytes(Decisions(samples, samplesPerSym)));
    if payload.Err? then Err(payload.error) else Deserialized(payload.value)
  }

  /** End to end over a noisy channel: with the mean in-phase noise of every symbol strictly
      inside (-1, 1), the receiver gets what the codec carries of every bundle: the lifetime
      always, type and priority if each fits a byte, payload and printed destination if the
      latter has at most 255 bytes. */
  lemma BundleSurvivesNoise(callsign: string, b: Bundle, noise: seq<IQSample>, samplesPerSym: nat)
    requires samplesPerSym > 0 && IsByteString(callsign) && IsRepresentable(b)
    requires var bits := BytesToBits(Header(callsign) + Serialized(b));
             |noise| == |Waveform(bits, samplesPerSym)| && MeanInsideUnit(|bits|, noise, samplesPerSym)
    ensures var sent := Waveform(BytesToBits(Header(callsign) + Serialized(b)), samplesPerSym);
            var r := Received(callsign, AddNoise(sent, noise), samplesPerSym);
            && r == Ok(Arrived(b)) && r.value.lifetime == b.lifetime
            && (b.bundleType == DataBundle ==> r.value.bundleType == DataBundle)
            && (b.bundleType == PingRequest ==> r.value.bundleType == PingRequest)
            && (b.bundleType == PingResponse ==> r.value.bundleType == PingResponse)
            && (forall c :: 3 <= c < 256 && b.bundleType == OtherType(c) ==> r.value.bundleType == OtherType(c))
            && (0 <= b.priority < 256 ==> r.value.priority == b.priority)
            && (|b.destination.Print()| <= 255 ==>
                  r.value.payload == b.payload && r.value.destination == EndpointID("ipn", b.destination.Print()))
  {
    hide Waveform, MeanInsideUnit, BytesToBits, BitsToBytes, Decisions, AddNoise, Serialized, Deserialized;
    var frame := Header(callsign) + Serialized(b);
    SmallNoiseIsTolerated(BytesToBits(frame), noise, samplesPerSym);
    BytesSurviveExactly(frame, noise, samplesPerSym);
    ExtractedExactly(callsign, frame, Serialized(b));
    DeserializeSerialize(b);
    TypeAndPriorityExactly(b);
    DestinationAndPayloadExactly(b);
  }
}
