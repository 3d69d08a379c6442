/** Bit packing of the IQ modem (pkg/iq/modulator.go), most significant bit first. */
module IqBits {
  import opened Prelude

  type Bit = b: int | 0 <= b <= 1

  /** 2 to the power 8 - m: what is left of a byte's range after m bits. */
  function High(m: nat): (h: nat)
    requires m <= 8
  {
    match m
    case 0 => 256 case 1 => 128 case 2 => 64 case 3 => 32 case 4 => 16
    case 5 => 8 case 6 => 4 case 7 => 2 case _ => 1
  }

  /** `b & (1 << (7 - j))` as 0 or 1. */
  function BitAt(b: Byte, j: nat): Bit
    requires j < 8
  {
    (b / High(j + 1)) % 2
  }

  /** `b |= 1 << (7 - j)`. */
  function SetBit(b: Byte, j: nat): Byte
    requires j < 8
  {
    if BitAt(b, j) == 1 then b else b + High(j + 1)
  }

  function BytesToBits(data: seq<Byte>): seq<Bit> {
    seq(|data| * 8, k requires 0 <= k < |data| * 8 => BitAt(data[k / 8], k % 8))
  }

  /** Bit 8n + j of a stream, zero past its end. */
  function BitOf(bits: seq<Bit>, n: nat, j: nat): Bit {
    if 8 * n + j < |bits| then bits[8 * n + j] else 0
  }

  /** The first m bits of byte n, as a number. */
  function Leading(bits: seq<Bit>, n: nat, m: nat): (v: nat)
    requires m <= 8
    ensures v * High(m) + High(m) <= 256
  {
    if m == 0 then 0 else 2 * Leading(bits, n, m - 1) + BitOf(bits, n, m - 1)
  }

  function ByteCount(bits: seq<Bit>): nat { (|bits| + 7) / 8 }

  function BitsToBytes(bits: seq<Bit>): seq<Byte> {
    seq(ByteCount(bits), n requires 0 <= n < ByteCount(bits) => Leading(bits, n, 8))
  }

  /** Setting the next bit of a byte whose later bits are clear. */
  lemma SetNextBit(v: nat, m: nat)
    requires m < 8 && v * High(m) + High(m) <= 256
    ensures SetBit(v * High(m), m) == (2 * v + 1) * High(m + 1)
    ensures v * High(m) == (2 * v) * High(m + 1)
  {
  }

  // ----------------------------------------------------------------- the two loops

  method ComputeBits(data: seq<Byte>) returns (bits: seq<Bit>)
    ensures bits == BytesToBits(data)
  {
    var buf := new Bit[|data| * 8](_ => 0);
    for i := 0 to |data|
      invariant forall k :: 0 <= k < 8 * i ==> buf[k] == BitAt(data[k / 8], k % 8)
    {
      for j := 0 to 8
        invariant forall k :: 0 <= k < 8 * i + j ==> buf[k] == BitAt(data[k / 8], k % 8)
      {
        assert (8 * i + j) / 8 == i && (8 * i + j) % 8 == j;
        if BitAt(data[i], j) != 0 {
          buf[i * 8 + j] := 1;
        } else {
          buf[i * 8 + j] := 0;
        }
      }
    }
    bits := buf[..];
  }

  /** How many bits of byte n lie before position i. */
  function Seen(i: nat, n: nat): (m: nat)
    ensures m <= 8
  {
    if i <= 8 * n then 0 else if i >= 8 * n + 8 then 8 else i - 8 * n
  }

  /** The bytes with the first i bits written and the rest still clear. */
  ghost predicate PackedUpTo(data: seq<Byte>, bits: seq<Bit>, i: nat) {
    |data| == ByteCount(bits) &&
    forall n :: 0 <= n < |data| ==> data[n] == Leading(bits, n, Seen(i, n)) * High(Seen(i, n))
  }

  lemma PackStep(data: seq<Byte>, bits: seq<Bit>, i: nat)
    requires PackedUpTo(data, bits, i) && i < |bits|
    ensures var n, j := i / 8, i % 8;
            PackedUpTo(data[n := if bits[i] == 1 then SetBit(data[n], j) else data[n]], bits, i + 1)
  {
    hide High, SetBit;
    var n, j := i / 8, i % 8;
    assert Seen(i, n) == j && Seen(i + 1, n) == j + 1;
    assert forall p :: 0 <= p < |data| && p != n ==> Seen(i + 1, p) == Seen(i, p);
    SetNextBit(Leading(bits, n, j), j);
    assert Leading(bits, n, j + 1) == 2 * Leading(bits, n, j) + bits[i];
  }

  method PackBits(bits: seq<Bit>) returns (bytes: seq<Byte>)
    ensures bytes == BitsToBytes(bits)
  {
    hide PackedUpTo, BitAt;
    var data := new Byte[(|bits| + 7) / 8](_ => 0);
    StartsClear(data[..], bits);
    for i := 0 to |bits|
      invariant data.Length == ByteCount(bits)
      invariant PackedUpTo(data[..], bits, i)
    {
      PackStep(data[..], bits, i);
      ghost var before := data[..];
      if bits[i] == 1 {
        data[i / 8] := SetBit(data[i / 8], i % 8);
      }
      assert data[..] == before[i / 8 := data[i / 8]];
    }
    EndsPacked(data[..], bits);
    bytes := data[..];
  }

  lemma StartsClear(data: seq<Byte>, bits: seq<Bit>)
    requires |data| == ByteCount(bits) && forall n :: 0 <= n < |data| ==> data[n] == 0
    ensures PackedUpTo(data, bits, 0)
  {
  }

  lemma EndsPacked(data: seq<Byte>, bits: seq<Bit>)
    requires PackedUpTo(data, bits, |bits|)
    ensures data == BitsToBytes(bits)
  {
    forall n | 0 <= n < |data| ensures data[n] == BitsToBytes(bits)[n] {
      PaddingIsZero(bits, n, Seen(|bits|, n));
    }
  }

  /** Bits past the end of the stream are zero. */
  lemma {:induction false} PaddingIsZero(bits: seq<Bit>, n: nat, m: nat)
    requires m <= 8 && (m == 8 || |bits| <= 8 * n + m)
    ensures Leading(bits, n, m) * High(m) == Leading(bits, n, 8)
    decreases 8 - m
  {
    if m < 8 {
      PaddingIsZero(bits, n, m + 1);
      SetNextBit(Leading(bits, n, m), m);
    }
  }

  /** Eight bits as a number: the first weighs 128 and the last 1. */
  function Weighed(b: seq<int>): int
    requires |b| == 8
  {
    128 * b[0] + 64 * b[1] + 32 * b[2] + 16 * b[3] + 8 * b[4] + 4 * b[5] + 2 * b[6] + b[7]
  }

  /** The eight bits of byte n, zero past the end of the stream. */
  function Eight(bits: seq<Bit>, n: nat): (r: seq<int>)
    ensures |r| == 8
  {
    seq(8, j requires 0 <= j < 8 => if 8 * n + j < |bits| then bits[8 * n + j] as int else 0)
  }

  /** Byte n of a packed stream is its eight bits, most significant first. */
  lemma ByteFromBits(bits: seq<Bit>, n: nat)
    requires n < |BitsToBytes(bits)|
    ensures BitsToBytes(bits)[n] == Weighed(Eight(bits, n))
  {
    forall m: nat | m < 8 ensures Leading(bits, n, m + 1) == 2 * Leading(bits, n, m) + Eight(bits, n)[m] {
    }
    assert Leading(bits, n, 0) == 0;
    var l := seq(9, m requires 0 <= m < 9 => Leading(bits, n, m));
    var b := Eight(bits, n);
    assert l[1] == 2 * l[0] + b[0] && l[2] == 2 * l[1] + b[1] && l[3] == 2 * l[2] + b[2] && l[4] == 2 * l[3] + b[3];
    assert l[5] == 2 * l[4] + b[4] && l[6] == 2 * l[5] + b[5] && l[7] == 2 * l[6] + b[6] && l[8] == 2 * l[7] + b[7];
  }

  lemma BitTotal(data: seq<Byte>)
    ensures |BytesToBits(data)| == 8 * |data|
  {
  }

  /** A byte is the sum of its bits' weights. */
  lemma BitsOfByte(data: seq<Byte>, n: nat)
    requires n < |data|
    ensures |BytesToBits(data)| == 8 * |data|
    ensures data[n] == Weighed(BytesToBits(data)[8 * n..8 * n + 8])
  {
    BitTotal(data);
    hide Weighed, BitAt, Leading, BitsToBytes, BytesToBits;
    var bits := BytesToBits(data);
    PackUnpack(data);
    ByteFromBits(bits, n);
    assert bits[8 * n..8 * n + 8] == Eight(bits, n);
  }

  // ------------------------------------------------------------------- round trips

  lemma {:induction false} LeadingOfByte(data: seq<Byte>, n: nat, m: nat)
    requires n < |data| && m <= 8
    ensures Leading(BytesToBits(data), n, m) == data[n] / High(m)
  {
    if m > 0 {
      hide High, BytesToBits;
      LeadingOfByte(data, n, m - 1);
      BitOfByte(data, n, m - 1);
      HalveTwice(data[n], m - 1);
    }
  }

  lemma BitOfByte(data: seq<Byte>, n: nat, j: nat)
    requires n < |data| && j < 8
    ensures BitOf(BytesToBits(data), n, j) == BitAt(data[n], j)
  {
    assert (8 * n + j) / 8 == n && (8 * n + j) % 8 == j;
  }

  lemma HalveTwice(b: Byte, m: nat)
    requires m < 8
    ensures 2 * (b / High(m)) + (b / High(m + 1)) % 2 == b / High(m + 1)
  {
  }

  /** Unpacking then packing is the identity on bytes. */
  lemma PackUnpack(data: seq<Byte>)
    ensures BitsToBytes(BytesToBits(data)) == data
  {
    var bits := BytesToBits(data);
    assert ByteCount(bits) == |data|;
    forall n | 0 <= n < |data| ensures BitsToBytes(bits)[n] == data[n] {
      LeadingOfByte(data, n, 8);
    }
  }

  lemma {:induction false} LeadingIsPrefix(bits: seq<Bit>, n: nat, m: nat)
    requires m <= 8
    ensures Leading(bits, n, 8) / High(m) == Leading(bits, n, m)
    decreases 8 - m
  {
    if m < 8 {
      LeadingIsPrefix(bits, n, m + 1);
      HalveTwice(Leading(bits, n, 8), m);
    }
  }

  /** Packing then unpacking returns the bits, zero-padded to whole bytes. */
  lemma UnpackPack(bits: seq<Bit>)
    ensures var back := BytesToBits(BitsToBytes(bits));
            |bits| <= |back| < |bits| + 8 &&
            forall k :: 0 <= k < |back| ==> back[k] == if k < |bits| then bits[k] else 0
  {
    var bytes := BitsToBytes(bits);
    forall k | 0 <= k < 8 * |bytes| ensures BytesToBits(bytes)[k] == if k < |bits| then bits[k] else 0 {
      var n, j := k / 8, k % 8;
      assert 8 * n + j == k;
      LeadingIsPrefix(bits, n, j + 1);
    }
  }
}
