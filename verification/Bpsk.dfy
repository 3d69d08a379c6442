/** BPSK (pkg/iq/modulator.go, pkg/iq/demodulator.go) with additive noise on the samples. */
module Bpsk {
  import opened Prelude
  import opened Iq
  import opened IqBits

  function Level(b: Bit): IQSample {
    IQSample(if b == 1 then -1.0 else 1.0, 0.0)
  }

  function Levels(bits: seq<Bit>): (r: seq<IQSample>)
    ensures |r| == |bits| && forall k :: 0 <= k < |bits| ==> r[k] == Level(bits[k])
  {
    seq(|bits|, k requires 0 <= k < |bits| => Level(bits[k]))
  }

  /** What modulateBPSK emits. */
  function Waveform(bits: seq<Bit>, samplesPerSym: nat): seq<IQSample> {
    Expand(Levels(bits), samplesPerSym)
  }

  method ModulateBPSK(trig: Trig, data: seq<Byte>, samplesPerSym: nat) returns (buffer: seq<IQSample>)
    requires trig.Lawful()
    ensures buffer == Waveform(BytesToBits(data), samplesPerSym)
  {
    var bits := ComputeBits(data);
    buffer := [];
    ghost var levels := Levels(bits);
    hide Expand, BytesToBits;
    assert levels[0..] == levels && [] + Expand(levels, samplesPerSym) == Expand(levels, samplesPerSym);
    for k := 0 to |bits|
      invariant buffer + Expand(levels[k..], samplesPerSym) == Expand(levels, samplesPerSym)
    {
      ExpandUnfold(levels, k, samplesPerSym);
      var phase := 0.0;
      if bits[k] == 1 {
        phase := trig.pi;
      }
      var symbol := HoldSymbol(trig, phase, samplesPerSym);
      buffer := buffer + symbol;
    }
    ExpandNothing(levels[|bits|..], samplesPerSym);
  }

  /** The waveform sample by sample: every sample of symbol s is at -1 for a 1 and at +1 for a 0,
      with nothing in quadrature. */
  lemma WaveformAt(bits: seq<Bit>, n: nat, s: nat, i: nat)
    requires s < |bits| && i < n
    ensures |Waveform(bits, n)| == |bits| * n && s * n + i < |bits| * n
    ensures Waveform(bits, n)[s * n + i] == if bits[s] == 1 then IQSample(-1.0, 0.0) else IQSample(1.0, 0.0)
  {
    ExpandAt(Levels(bits), n, s, i);
    ExpandLength(Levels(bits), n);
  }

  method HoldSymbol(trig: Trig, phase: real, samplesPerSym: nat) returns (samples: seq<IQSample>)
    ensures samples == Repeat(IQSample(trig.cos(phase), trig.sin(phase)), samplesPerSym)
  {
    samples := [];
    for i := 0 to samplesPerSym
      invariant samples == Repeat(IQSample(trig.cos(phase), trig.sin(phase)), i)
    {
      samples := samples + [IQSample(trig.cos(phase), trig.sin(phase))];
    }
  }

  function InPhase(samples: seq<IQSample>): (r: seq<real>)
    ensures |r| == |samples| && forall k :: 0 <= k < |samples| ==> r[k] == samples[k].i
  {
    seq(|samples|, k requires 0 <= k < |samples| => samples[k].i)
  }

  /** A positive average is bit 0. */
  function Decisions(samples: seq<IQSample>, samplesPerSym: nat): seq<Bit>
    requires samplesPerSym > 0
  {
    DecidedBits(InPhase(samples), samplesPerSym, false)
  }

  method DemodulateBPSK(samples: seq<IQSample>, samplesPerSym: nat) returns (data: seq<Byte>)
    requires samplesPerSym > 0
    ensures data == BitsToBytes(Decisions(samples, samplesPerSym))
  {
    if |samples| == 0 {
      assert BitsToBytes(Decisions(samples, samplesPerSym)) == [];
      return [];
    }
    var decisions := DecideLoop(InPhase(samples), samplesPerSym, false);
    data := PackBits(AsBits(decisions));
  }

  // ------------------------------------------------------------------------- noise

  function AddNoise(samples: seq<IQSample>, noise: seq<IQSample>): (r: seq<IQSample>)
    requires |noise| == |samples|
    ensures |r| == |samples|
    ensures forall k :: 0 <= k < |r| ==> r[k] == IQSample(samples[k].i + noise[k].i, samples[k].q + noise[k].q)
  {
    seq(|samples|, k requires 0 <= k < |samples| =>
      IQSample(samples[k].i + noise[k].i, samples[k].q + noise[k].q))
  }

  /** Per symbol, the in-phase noise over its n samples does not outweigh the signal. */
  predicate Tolerated(bits: seq<Bit>, noise: seq<IQSample>, n: nat) {
    bits == [] ||
    (|noise| >= n &&
     (var s := Sum(InPhase(noise[..n]));
      if bits[0] == 1 then s <= n as real else s > -(n as real)) &&
     Tolerated(bits[1..], noise[n..], n))
  }

  lemma {:induction false} NoisySum(x: IQSample, noise: seq<IQSample>, n: nat)
    requires |noise| == n
    ensures Sum(InPhase(AddNoise(Repeat(x, n), noise))) == x.i * n as real + Sum(InPhase(noise))
  {
    if n > 0 {
      var m := n - 1;
      NoisySum(x, noise[..m], m);
      var xs, ys := InPhase(AddNoise(Repeat(x, n), noise)), InPhase(noise);
      assert xs[..m] == InPhase(AddNoise(Repeat(x, m), noise[..m])) && ys[..m] == InPhase(noise[..m]);
      assert xs[m] == x.i + ys[m];
      hide *;
      assert x.i * n as real == x.i * m as real + x.i;
    }
  }

  /** The first symbol's window and the rest. */
  lemma FirstWindow(bits: seq<Bit>, noise: seq<IQSample>, n: nat)
    requires bits != [] && |noise| == |Waveform(bits, n)|
    ensures |noise| >= n && |noise[n..]| == |Waveform(bits[1..], n)|
    ensures AddNoise(Waveform(bits, n), noise)
            == AddNoise(Repeat(Level(bits[0]), n), noise[..n]) + AddNoise(Waveform(bits[1..], n), noise[n..])
  {
    hide AddNoise;
    var first, rest := Repeat(Level(bits[0]), n), Waveform(bits[1..], n);
    assert Levels(bits)[1..] == Levels(bits[1..]);
    assert Waveform(bits, n) == first + rest;
    NoiseConcat(first, rest, noise);
  }

  lemma NoiseConcat(a: seq<IQSample>, b: seq<IQSample>, noise: seq<IQSample>)
    requires |noise| == |a| + |b|
    ensures AddNoise(a + b, noise) == AddNoise(a, noise[..|a|]) + AddNoise(b, noise[|a|..])
  {
  }

  lemma FirstDecision(b: Bit, noise: seq<IQSample>, n: nat)
    requires n > 0 && |noise| == n
    ensures FirstBit(AddNoise(Repeat(Level(b), n), noise)) == b
            <==> if b == 1 then Sum(InPhase(noise)) <= n as real else Sum(InPhase(noise)) > -(n as real)
  {
    hide Sum, AddNoise, InPhase, Repeat;
    NoisySum(Level(b), noise, n);
  }

  /** The demodulator recovers the bits exactly when each symbol's noise is tolerated. */
  lemma {:induction false} BitsSurviveExactly(bits: seq<Bit>, noise: seq<IQSample>, n: nat)
    requires n > 0 && |noise| == |Waveform(bits, n)|
    ensures var received := AddNoise(Waveform(bits, n), noise);
            |Decisions(received, n)| == |bits| &&
            (Decisions(received, n) == bits <==> Tolerated(bits, noise, n))
    decreases |bits|
  {
    if bits == [] {
      NothingSurvives(noise, n);
    } else {
      FirstWindow(bits, noise, n);
      BitsSurviveExactly(bits[1..], noise[n..], n);
      FirstDecision(bits[0], noise[..n], n);
      var first := AddNoise(Repeat(Level(bits[0]), n), noise[..n]);
      var rest := AddNoise(Waveform(bits[1..], n), noise[n..]);
      FirstDecided(first, rest, n);
      hide Decisions, Waveform, Sum, AddNoise, InPhase, Level, Repeat, FirstBit;
      HeadAndTail(bits, FirstBit(first), Decisions(rest, n));
    }
  }

  lemma NothingSurvives(noise: seq<IQSample>, n: nat)
    requires n > 0 && |noise| == |Waveform([], n)|
    ensures Decisions(AddNoise(Waveform([], n), noise), n) == []
  {
    assert Levels([]) == [];
  }

  function FirstBit(window: seq<IQSample>): Bit {
    if Sum(InPhase(window)) > 0.0 then 0 else 1
  }

  lemma FirstDecided(first: seq<IQSample>, rest: seq<IQSample>, n: nat)
    requires n > 0 && |first| == n
    ensures Decisions(first + rest, n) == [FirstBit(first)] + Decisions(rest, n)
  {
    assert InPhase(first + rest) == InPhase(first) + InPhase(rest);
    hide DecidedBits, Sum, InPhase;
    DecidedFirst(InPhase(first), InPhase(rest), n, false);
  }

  /** Per symbol the mean in-phase noise is strictly inside (-1, 1). */
  predicate MeanInsideUnit(symbols: nat, noise: seq<IQSample>, n: nat)
    requires n > 0
  {
    symbols == 0 ||
    (|noise| >= n && -1.0 < Sum(InPhase(noise[..n])) / n as real < 1.0 &&
     MeanInsideUnit(symbols - 1, noise[n..], n))
  }

  lemma MeanBound(s: real, c: real)
    requires c > 0.0 && -1.0 < s / c < 1.0
    ensures -c < s < c
  {
    var m := s / c;
    assert s == m * c;
    assert (1.0 - m) * c > 0.0 && (m + 1.0) * c > 0.0;
  }

  lemma {:induction false} SmallNoiseIsTolerated(bits: seq<Bit>, noise: seq<IQSample>, n: nat)
    requires n > 0 && MeanInsideUnit(|bits|, noise, n)
    ensures Tolerated(bits, noise, n)
  {
    if bits != [] {
      SmallNoiseIsTolerated(bits[1..], noise[n..], n);
      MeanBound(Sum(InPhase(noise[..n])), n as real);
    }
  }

  /** Modulate, add noise, demodulate returns the bytes, exactly when the noise is tolerated. */
  lemma BytesSurviveExactly(data: seq<Byte>, noise: seq<IQSample>, n: nat)
    requires n > 0 && |noise| == |Waveform(BytesToBits(data), n)|
    ensures BitsToBytes(Decisions(AddNoise(Waveform(BytesToBits(data), n), noise), n)) == data
            <==> Tolerated(BytesToBits(data), noise, n)
  {
    var bits := BytesToBits(data);
    BitsSurviveExactly(bits, noise, n);
    DecodedBytes(data, Decisions(AddNoise(Waveform(bits, n), noise), n));
  }
}
