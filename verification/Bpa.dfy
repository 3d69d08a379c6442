/** Endpoints, bundle identity and bundle validity (pkg/bpa/types.go, pkg/bpa/bpa.go). */
module Bpa {
  import opened Prelude
  import opened Decimal

  // ------------------------------------------------------------------- identities

  datatype EndpointID = EndpointID(scheme: string, ssp: string)
  {
    function Print(): string { scheme + "://" + ssp }
  }

  datatype BundleID = BundleID(source: EndpointID, creationTimestamp: int, sequenceNumber: nat)
  {
    /** Also the store's key: SHA-256 of this string is taken to be collision-free. */
    function Print(): string {
      source.Print() + "-" + Integer(creationTimestamp) + "-" + Natural(sequenceNumber)
    }
  }

  /** The scheme of b swallows a separator: both print `a.scheme://m://b.ssp`. */
  ghost predicate Nested(a: EndpointID, b: EndpointID) {
    exists m :: Nests(a, b, m)
  }

  predicate Nests(a: EndpointID, b: EndpointID, m: string) {
    b.scheme == a.scheme + "://" + m && a.ssp == m + "://" + b.ssp
  }

  /** Two endpoints print alike exactly when they are equal or one nests in the other. */
  lemma EndpointsCollideExactly(a: EndpointID, b: EndpointID)
    ensures a.Print() == b.Print() <==> a == b || Nested(a, b) || Nested(b, a)
  {
    if a.Print() == b.Print() {
      if |a.scheme| <= |b.scheme| {
        LongerSchemeNests(a, b);
      } else {
        LongerSchemeNests(b, a);
      }
    }
    if Nested(a, b) {
      var m :| Nests(a, b, m);
      NestedPrintAlike(a, b, m);
    }
    if Nested(b, a) {
      var m :| Nests(b, a, m);
      NestedPrintAlike(b, a, m);
    }
  }

  lemma NestedPrintAlike(a: EndpointID, b: EndpointID, m: string)
    requires Nests(a, b, m)
    ensures a.Print() == b.Print()
  {
    assert a.scheme + "://" + (m + "://" + b.ssp) == (a.scheme + "://" + m) + "://" + b.ssp;
  }

  lemma LongerSchemeNests(a: EndpointID, b: EndpointID)
    requires a.Print() == b.Print() && |a.scheme| <= |b.scheme|
    ensures a == b || Nested(a, b)
  {
    var s, i, j := a.Print(), |a.scheme|, |b.scheme|;
    Separated(a);
    Separated(b);
    if i == j {
      assert a == b;
    } else {
      assert j >= i + 3;
      var m := b.scheme[i + 3..];
      assert b.scheme == s[..i] + s[i..i + 3] + m;
      assert s[i + 3..] == s[i + 3..j] + s[j..j + 3] + s[j + 3..];
      assert Nests(a, b, m);
    }
  }

  /** Where the parts of a printed endpoint lie. */
  lemma Separated(a: EndpointID)
    ensures var s, i := a.Print(), |a.scheme|;
            && |s| == i + 3 + |a.ssp| && s[..i] == a.scheme && s[i..i + 3] == "://" && s[i + 3..] == a.ssp
            && s[i] == ':' && s[i + 1] == '/' && s[i + 2] == '/'
  {
  }

  lemma DigitsHoldNoDash(n: nat)
    ensures '-' !in Natural(n)
  {
  }

  function Sign(t: int): string { if t < 0 then "-" else "" }

  function Magnitude(t: int): nat { if t < 0 then -t else t }

  /** The endpoint as the printed ID shows it: a minus sign reads as its last byte. */
  function Shown(id: BundleID): EndpointID {
    EndpointID(id.source.scheme, id.source.ssp + Sign(id.creationTimestamp))
  }

  /** The printed ID is its shown endpoint, the timestamp without its sign, and the number. */
  lemma PrintShown(id: BundleID)
    ensures id.Print() == (Shown(id).Print() + "-" + Natural(Magnitude(id.creationTimestamp)))
                          + "-" + Natural(id.sequenceNumber)
  {
    var e, t := id.source.Print(), id.creationTimestamp;
    assert Shown(id).Print() == e + Sign(t);
    if t < 0 {
      assert e + "-" + ("-" + Natural(-t)) == (e + "-") + "-" + Natural(-t);
    } else {
      assert e + "" == e;
    }
  }

  /** Two bundle IDs print alike exactly when their sequence numbers agree, their timestamps
      agree up to sign, and the endpoints they show are equal or nested. */
  ghost predicate Collide(a: BundleID, b: BundleID) {
    && a.sequenceNumber == b.sequenceNumber
    && Magnitude(a.creationTimestamp) == Magnitude(b.creationTimestamp)
    && (Shown(a) == Shown(b) || Nested(Shown(a), Shown(b)) || Nested(Shown(b), Shown(a)))
  }

  lemma PrintCollidesExactly(a: BundleID, b: BundleID)
    ensures a.Print() == b.Print() <==> Collide(a, b)
  {
    hide BundleID.Print, EndpointID.Print, Shown, Nested, Natural, Magnitude;
    var m, n := Magnitude(a.creationTimestamp), Magnitude(b.creationTimestamp);
    var p, q := a.sequenceNumber, b.sequenceNumber;
    PrintShown(a);
    PrintShown(b);
    EndpointsCollideExactly(Shown(a), Shown(b));
    if a.Print() == b.Print() {
      DigitsHoldNoDash(p);
      DigitsHoldNoDash(q);
      SplitAtLastDash(Shown(a).Print() + "-" + Natural(m), Natural(p), Shown(b).Print() + "-" + Natural(n), Natural(q));
      NaturalInjective(p, q);
      DigitsHoldNoDash(m);
      DigitsHoldNoDash(n);
      SplitAtLastDash(Shown(a).Print(), Natural(m), Shown(b).Print(), Natural(n));
      NaturalInjective(m, n);
    }
  }

  predicate HasSeparator(s: string) {
    exists i :: 0 <= i < |s| && SeparatorAt(s, i)
  }

  predicate SeparatorAt(s: string, i: nat) {
    i + 3 <= |s| && s[i..i + 3] == "://"
  }

  /** The IDs for which printing is injective. */
  predicate Canonical(id: BundleID) {
    !HasSeparator(id.source.scheme) && id.creationTimestamp >= 0
  }

  lemma CanonicalPrintInjective(a: BundleID, b: BundleID)
    requires Canonical(a) && Canonical(b) && a.Print() == b.Print()
    ensures a == b
  {
    PrintCollidesExactly(a, b);
    if Nested(Shown(a), Shown(b)) {
      NestingNeedsSeparator(Shown(a), Shown(b));
    } else if Nested(Shown(b), Shown(a)) {
      NestingNeedsSeparator(Shown(b), Shown(a));
    }
    assert a.source.ssp + "" == a.source.ssp && b.source.ssp + "" == b.source.ssp;
  }

  lemma NestingNeedsSeparator(a: EndpointID, b: EndpointID)
    requires Nested(a, b)
    ensures HasSeparator(b.scheme)
  {
    var m :| Nests(a, b, m);
    assert SeparatorAt(b.scheme, |a.scheme|);
  }

  /** Concrete collisions: a nested endpoint, and a timestamp with its negation. */
  lemma CollidingPairs()
    ensures var a, b := EndpointID("a", "b://c"), EndpointID("a://b", "c");
            a != b && Nested(a, b) && a.Print() == b.Print()
    ensures var a, b := BundleID(EndpointID("dtn", "x"), -1, 0), BundleID(EndpointID("dtn", "x-"), 1, 0);
            a != b && Collide(a, b) && a.Print() == b.Print()
  {
    assert Nests(EndpointID("a", "b://c"), EndpointID("a://b", "c"), "b");
    EndpointsCollideExactly(EndpointID("a", "b://c"), EndpointID("a://b", "c"));
    var a, b := BundleID(EndpointID("dtn", "x"), -1, 0), BundleID(EndpointID("dtn", "x-"), 1, 0);
    assert Shown(a).ssp == "x-" == Shown(b).ssp;
    PrintCollidesExactly(a, b);
  }

  // ---------------------------------------------------------------------- bundles

  datatype BundleType = DataBundle | PingRequest | PingResponse | OtherType(code: int)

  const PRIORITY_EXPEDITED := 2
  const HEADER_OVERHEAD := 256
  const PONG: seq<Byte> := [80, 79, 78, 71]

  datatype Bundle = Bundle(
    id: BundleID, destination: EndpointID, payload: seq<Byte>, priority: int,
    lifetime: int, createdAt: int, bundleType: BundleType)
  {
    /** The sum is an int64 and wraps. */
    predicate IsExpired(now: int) { Wrap64(createdAt + lifetime) <= now }

    function Size(): nat { |payload| + HEADER_OVERHEAD }

    function Key(): string { id.Print() }
  }

  function Wrap64(n: int): int {
    (n + 0x8000_0000_0000_0000) % 0x1_0000_0000_0000_0000 - 0x8000_0000_0000_0000
  }

  predicate IsInt64(n: int) { -0x8000_0000_0000_0000 <= n < 0x8000_0000_0000_0000 }

  /** A bundle expires when its lifetime has passed since its creation. */
  lemma ExpiredExactly(b: Bundle, t: int)
    requires IsInt64(b.createdAt + b.lifetime)
    ensures b.IsExpired(t) <==> b.createdAt + b.lifetime <= t
  {
  }

  /** A bundle is valid exactly while it has a destination and its lifetime from creation runs;
      one whose end of life exceeds an int64 never is, as the sum wraps into the past. */
  lemma ValidExactly(b: Bundle, t: int)
    requires IsInt64(b.createdAt) && IsInt64(b.lifetime)
    ensures IsValidBundle(b, t) <==>
            && b.destination.scheme != "" && b.destination.ssp != "" && 0 < b.lifetime
            && b.createdAt <= t < b.createdAt + b.lifetime < 0x8000_0000_0000_0000
  {
  }

  datatype BundleError = InvalidDestination | BadLifetime | CreatedInFuture | BundleExpired

  predicate IsValidBundle(b: Bundle, now: int) {
    b.destination.scheme != "" && b.destination.ssp != "" &&
    b.lifetime > 0 && b.createdAt <= now && !b.IsExpired(now)
  }

  /** The error names the first defect: destination, lifetime, creation time, expiry. */
  predicate FirstDefect(e: BundleError, b: Bundle, now: int) {
    var addressed := b.destination.scheme != "" && b.destination.ssp != "";
    match e
    case InvalidDestination => !addressed
    case BadLifetime => addressed && b.lifetime <= 0
    case CreatedInFuture => addressed && b.lifetime > 0 && b.createdAt > now
    case BundleExpired => addressed && b.lifetime > 0 && b.createdAt <= now && b.IsExpired(now)
  }

  datatype PingError = NotAPing | NoLocalEndpoint

  class BundleProtocolAgent {
    const localEndpoints: seq<EndpointID>
    var sequenceNum: nat   // uint64

    constructor (endpoints: seq<EndpointID>)
      ensures localEndpoints == endpoints && sequenceNum == 0
    {
      localEndpoints, sequenceNum := endpoints, 0;
    }

    method ValidateBundle(b: Bundle, now: int) returns (r: Result<(), BundleError>)
      ensures r.Ok? <==> IsValidBundle(b, now)
      ensures r.Err? ==> FirstDefect(r.error, b, now)
    {
      if b.destination.scheme == "" || b.destination.ssp == "" {
        return Err(InvalidDestination);
      }
      if b.lifetime <= 0 {
        return Err(BadLifetime);
      }
      if b.createdAt > now {
        return Err(CreatedInFuture);
      }
      if b.IsExpired(now) {
        return Err(BundleExpired);
      }
      r := Ok(());
    }

    method IsLocalEndpoint(e: EndpointID) returns (local: bool)
      ensures local <==> e in localEndpoints
    {
      for i := 0 to |localEndpoints|
        invariant e !in localEndpoints[..i]
      {
        if localEndpoints[i].scheme == e.scheme && localEndpoints[i].ssp == e.ssp {
          return true;
        }
      }
      local := false;
    }

    /** The echo goes back to the sender of the request; the sequence number is drawn even
        when no local endpoint can be the source. */
    method HandlePing(ping: Bundle, now: int) returns (r: Result<Bundle, PingError>)
      modifies this
      ensures ping.bundleType != PingRequest ==> r == Err(NotAPing) && sequenceNum == old(sequenceNum)
      ensures ping.bundleType == PingRequest ==>
                sequenceNum == (old(sequenceNum) + 1) % 0x1_0000_0000_0000_0000
      ensures r.Ok? <==> ping.bundleType == PingRequest && localEndpoints != []
      ensures r.Ok? ==>
                r.value.destination == ping.id.source && r.value.bundleType == PingResponse &&
                r.value.id == BundleID(localEndpoints[0], now, sequenceNum) &&
                r.value.payload == PONG && r.value.priority == PRIORITY_EXPEDITED &&
                r.value.lifetime == 300 && r.value.createdAt == now
    {
      if ping.bundleType != PingRequest {
        return Err(NotAPing);
      }
      sequenceNum := (sequenceNum + 1) % 0x1_0000_0000_0000_0000;
      if |localEndpoints| == 0 {
        return Err(NoLocalEndpoint);
      }
      r := Ok(Bundle(BundleID(localEndpoints[0], now, sequenceNum), ping.id.source, PONG,
                     PRIORITY_EXPEDITED, 300, now, PingResponse));
    }
  }
}
