/** Unfiltered FSK (pkg/iq/modulator.go, pkg/iq/demodulator.go): phase accumulation with
    wrapping, and the discriminator that unwraps it again. Exact arithmetic. */
module Fsk {
  import opened Prelude
  import opened Iq
  import opened IqBits

  datatype Config = Config(sampleRate: real, frequencyDev: real, samplesPerSym: nat)
  {
    /** Positive deviation below half the sample rate. */
    predicate IsUsable() {
      sampleRate > 0.0 && frequencyDev > 0.0 && 2.0 * frequencyDev < sampleRate && samplesPerSym > 0
    }
  }

  // ------------------------------------------------------------- angles modulo a turn

  function Turns(pi: real, n: int): real { 2.0 * pi * n as real }

  ghost predicate Congruent(pi: real, a: real, b: real) {
    exists n: int :: a == b + Turns(pi, n)
  }

  lemma TurnsAdd(pi: real, m: int, n: int)
    ensures Turns(pi, m) + Turns(pi, n) == Turns(pi, m + n)
    ensures Turns(pi, m) - Turns(pi, n) == Turns(pi, m - n)
  {
    var p, x, y := 2.0 * pi, m as real, n as real;
    assert p * x + p * y == p * (x + y) && p * x - p * y == p * (x - y);
  }

  /** Differences of congruent angles are congruent. */
  lemma CongruentDifference(pi: real, a: real, b: real, c: real, d: real)
    requires Congruent(pi, a, b) && Congruent(pi, c, d)
    ensures Congruent(pi, a - c, b - d)
  {
    var m: int :| a == b + Turns(pi, m);
    var n: int :| c == d + Turns(pi, n);
    TurnsAdd(pi, m, n);
    assert a - c == (b - d) + Turns(pi, m - n);
  }

  lemma CongruentTrans(pi: real, a: real, b: real, c: real)
    requires Congruent(pi, a, b) && Congruent(pi, b, c)
    ensures Congruent(pi, a, c)
  {
    var m: int :| a == b + Turns(pi, m);
    var n: int :| b == c + Turns(pi, n);
    TurnsAdd(pi, m, n);
    assert a == c + Turns(pi, m + n);
  }

  /** Two congruent angles less than a turn apart are equal. */
  lemma CongruentUnique(pi: real, a: real, b: real)
    requires pi > 0.0 && Congruent(pi, a, b) && -2.0 * pi < a - b < 2.0 * pi
    ensures a == b
  {
    var n: int :| a == b + Turns(pi, n);
    WholeTurns(pi, n);
  }

  lemma WholeTurns(pi: real, n: int)
    requires pi > 0.0
    ensures n >= 1 ==> Turns(pi, n) >= 2.0 * pi
    ensures n <= -1 ==> Turns(pi, n) <= -2.0 * pi
    ensures n == 0 ==> Turns(pi, n) == 0.0
  {
    var p, x := 2.0 * pi, n as real;
    if n >= 1 {
      assert x - 1.0 >= 0.0;
      assert p * x == p + p * (x - 1.0);
    }
    if n <= -1 {
      assert -1.0 - x >= 0.0;
      assert p * x == -p - p * (-1.0 - x);
    }
  }

  /** The two wrapping loops, which both directions of the modem share. */
  method Wrap(pi: real, angle: real) returns (wrapped: real)
    requires 3.0 < pi
    ensures -pi <= wrapped <= pi && Congruent(pi, wrapped, angle)
  {
    wrapped := angle;
    ghost var n := 0;
    while wrapped > pi
      invariant wrapped == angle + Turns(pi, n)
      invariant wrapped < -pi ==> wrapped == angle
      decreases wrapped
    {
      TurnsAdd(pi, n, -1);
      wrapped := wrapped - 2.0 * pi;
      n := n - 1;
    }
    while wrapped < -pi
      invariant wrapped == angle + Turns(pi, n) && wrapped <= pi
      decreases -wrapped
    {
      TurnsAdd(pi, n, 1);
      wrapped := wrapped + 2.0 * pi;
      n := n + 1;
    }
  }

  // --------------------------------------------------------------------- modulation

  /** The deviation of each sample. */
  function Tone(cfg: Config, b: Bit): real {
    if b == 1 then cfg.frequencyDev else -cfg.frequencyDev
  }

  function Tones(cfg: Config, bits: seq<Bit>): (r: seq<real>)
    ensures |r| == |bits| && forall k :: 0 <= k < |bits| ==> r[k] == Tone(cfg, bits[k])
  {
    seq(|bits|, k requires 0 <= k < |bits| => Tone(cfg, bits[k]))
  }

  function Frequencies(cfg: Config, bits: seq<Bit>): seq<real> {
    Expand(Tones(cfg, bits), cfg.samplesPerSym)
  }

  /** Phase advance of one sample at frequency f. */
  function Advance(pi: real, cfg: Config, f: real): real
    requires cfg.sampleRate > 0.0
  {
    2.0 * pi * f / cfg.sampleRate
  }

  /** The samples are points on the unit circle at wrapped phases, each one advance past the last. */
  ghost predicate Follows(trig: Trig, cfg: Config, start: real, freqs: seq<real>,
                          phases: seq<real>, samples: seq<IQSample>)
    requires cfg.sampleRate > 0.0
  {
    && |phases| == |freqs| == |samples|
    && forall k :: 0 <= k < |freqs| ==>
         && -trig.pi <= phases[k] <= trig.pi
         && Congruent(trig.pi, phases[k],
                      (if k == 0 then start else phases[k - 1]) + Advance(trig.pi, cfg, freqs[k]))
         && samples[k] == IQSample(trig.cos(phases[k]), trig.sin(phases[k]))
  }

  class Modulator {
    const cfg: Config
    var phase: real

    constructor (cfg: Config)
      ensures this.cfg == cfg && phase == 0.0
    {
      this.cfg := cfg;
      phase := 0.0;
    }

    /** One sample: accumulate, wrap, emit. */
    method NextSample(trig: Trig, freq: real) returns (sample: IQSample)
      requires trig.Lawful() && cfg.sampleRate > 0.0
      modifies this
      ensures -trig.pi <= phase <= trig.pi
      ensures Congruent(trig.pi, phase, old(phase) + Advance(trig.pi, cfg, freq))
      ensures sample == IQSample(trig.cos(phase), trig.sin(phase))
    {
      phase := phase + 2.0 * trig.pi * freq / cfg.sampleRate;
      phase := Wrap(trig.pi, phase);
      sample := IQSample(trig.cos(phase), trig.sin(phase));
    }

    /** modulateFSK without a filter, from whatever phase the last call left. */
    method ModulateFSK(trig: Trig, data: seq<Byte>) returns (buffer: seq<IQSample>, ghost phases: seq<real>)
      requires trig.Lawful() && cfg.sampleRate > 0.0
      modifies this
      ensures Follows(trig, cfg, old(phase), Frequencies(cfg, BytesToBits(data)), phases, buffer)
      ensures phase == LastPhase(old(phase), phases)
    {
      hide Expand, BytesToBits, Follows, Repeat, Trig.Lawful;
      var bits := ComputeBits(data);
      ghost var tones := Tones(cfg, bits);
      ghost var freqs: seq<real> := [];
      buffer, phases := [], [];
      assert tones[0..] == tones && [] + Expand(tones, cfg.samplesPerSym) == Expand(tones, cfg.samplesPerSym);
      FollowsNothing(trig, cfg, phase);
      for k := 0 to |bits|
        invariant freqs + Expand(tones[k..], cfg.samplesPerSym) == Expand(tones, cfg.samplesPerSym)
        invariant Follows(trig, cfg, old(phase), freqs, phases, buffer)
        invariant phase == LastPhase(old(phase), phases)
      {
        ExpandUnfold(tones, k, cfg.samplesPerSym);
        var symbol := if bits[k] == 0 then -1.0 else 1.0;
        var freq := symbol * cfg.frequencyDev;
        assert freq == tones[k];
        ghost var tail := Expand(tones[k + 1..], cfg.samplesPerSym);
        assert freqs + (Repeat(freq, cfg.samplesPerSym) + tail) == freqs + Repeat(freq, cfg.samplesPerSym) + tail;
        buffer, freqs, phases := ModulateSymbol(trig, freq, buffer, old(phase), freqs, phases);
      }
      ExpandNothing(tones[|bits|..], cfg.samplesPerSym);
      assert freqs + [] == freqs == Frequencies(cfg, bits);
    }

    /** The inner loop: one symbol's samples appended to the buffer. */
    method ModulateSymbol(trig: Trig, freq: real, before: seq<IQSample>,
                          ghost start: real, ghost freqs: seq<real>, ghost phases: seq<real>)
      returns (buffer: seq<IQSample>, ghost freqs': seq<real>, ghost phases': seq<real>)
      requires trig.Lawful() && cfg.sampleRate > 0.0
      requires Follows(trig, cfg, start, freqs, phases, before) && phase == LastPhase(start, phases)
      modifies this
      ensures freqs' == freqs + Repeat(freq, cfg.samplesPerSym)
      ensures Follows(trig, cfg, start, freqs', phases', buffer) && phase == LastPhase(start, phases')
    {
      hide Follows, Congruent;
      buffer, freqs', phases' := before, freqs, phases;
      for i := 0 to cfg.samplesPerSym
        invariant freqs' == freqs + Repeat(freq, i)
        invariant Follows(trig, cfg, start, freqs', phases', buffer)
        invariant phase == LastPhase(start, phases')
      {
        var sample := NextSample(trig, freq);
        FollowsSnoc(trig, cfg, start, freqs', phases', buffer, freq, phase, sample);
        buffer := buffer + [sample];
        phases' := phases' + [phase];
        freqs' := freqs' + [freq];
      }
    }
  }

  function LastPhase(start: real, phases: seq<real>): real {
    if phases == [] then start else phases[|phases| - 1]
  }

  lemma FollowsNothing(trig: Trig, cfg: Config, start: real)
    requires cfg.sampleRate > 0.0
    ensures Follows(trig, cfg, start, [], [], [])
  {
  }

  lemma FollowsSnoc(trig: Trig, cfg: Config, start: real, freqs: seq<real>, phases: seq<real>,
                    samples: seq<IQSample>, freq: real, phase: real, sample: IQSample)
    requires cfg.sampleRate > 0.0 && Follows(trig, cfg, start, freqs, phases, samples)
    requires -trig.pi <= phase <= trig.pi && sample == IQSample(trig.cos(phase), trig.sin(phase))
    requires Congruent(trig.pi, phase, LastPhase(start, phases) + Advance(trig.pi, cfg, freq))
    ensures Follows(trig, cfg, start, freqs + [freq], phases + [phase], samples + [sample])
  {
    hide Congruent, Advance;
  }

  /** Sample i of symbol s is sent at +deviation for a 1 and at -deviation for a 0. */
  lemma FrequencyAt(cfg: Config, bits: seq<Bit>, s: nat, i: nat)
    requires s < |bits| && i < cfg.samplesPerSym
    ensures var n := cfg.samplesPerSym;
            && |Frequencies(cfg, bits)| == |bits| * n && s * n + i < |bits| * n
            && Frequencies(cfg, bits)[s * n + i] == if bits[s] == 1 then cfg.frequencyDev else -cfg.frequencyDev
  {
    ExpandAt(Tones(cfg, bits), cfg.samplesPerSym, s, i);
    ExpandLength(Tones(cfg, bits), cfg.samplesPerSym);
  }

  /** Each sample's phase is, up to whole turns, the starting phase plus one turn for every
      full cycle of the frequencies sent so far. */
  lemma PhaseAccumulates(trig: Trig, cfg: Config, start: real, freqs: seq<real>,
                         phases: seq<real>, samples: seq<IQSample>, k: nat)
    requires cfg.sampleRate > 0.0 && Follows(trig, cfg, start, freqs, phases, samples) && k < |freqs|
    ensures Congruent(trig.pi, phases[k], start + 2.0 * trig.pi * Sum(freqs[..k + 1]) / cfg.sampleRate)
  {
    AdvancesSum(trig, cfg, start, freqs, phases, samples, k);
  }

  lemma {:induction false} AdvancesSum(trig: Trig, cfg: Config, start: real, freqs: seq<real>,
                                       phases: seq<real>, samples: seq<IQSample>, k: nat)
    requires cfg.sampleRate > 0.0 && Follows(trig, cfg, start, freqs, phases, samples) && k < |freqs|
    ensures Congruent(trig.pi, phases[k], start + Advance(trig.pi, cfg, Sum(freqs[..k + 1])))
  {
    hide Advance, Congruent;
    assert freqs[..k + 1][..k] == freqs[..k];
    AdvancesAdd(trig.pi, cfg, Sum(freqs[..k]), freqs[k]);
    var step := Advance(trig.pi, cfg, freqs[k]);
    if k > 0 {
      AdvancesSum(trig, cfg, start, freqs, phases, samples, k - 1);
      AddCongruent(trig.pi, phases[k - 1], start + Advance(trig.pi, cfg, Sum(freqs[..k])), step);
      CongruentTrans(trig.pi, phases[k], phases[k - 1] + step, start + Advance(trig.pi, cfg, Sum(freqs[..k])) + step);
    } else {
      assert Sum(freqs[..0]) == 0.0;
    }
  }

  lemma AdvancesAdd(pi: real, cfg: Config, f: real, g: real)
    requires cfg.sampleRate > 0.0
    ensures Advance(pi, cfg, f + g) == Advance(pi, cfg, f) + Advance(pi, cfg, g)
    ensures Advance(pi, cfg, 0.0) == 0.0
  {
    var p := 2.0 * pi;
    assert p * (f + g) == p * f + p * g;
  }

  lemma AddCongruent(pi: real, a: real, b: real, c: real)
    requires Congruent(pi, a, b)
    ensures Congruent(pi, a + c, b + c)
  {
    var n: int :| a == b + Turns(pi, n);
    assert a + c == b + c + Turns(pi, n);
  }

  // ------------------------------------------------------------------- demodulation

  /** What atan2 reads off a sample at phase p: p itself, or pi at the seam. */
  lemma PhaseOfSample(trig: Trig, p: real)
    requires trig.Lawful() && -trig.pi <= p <= trig.pi
    ensures var read := trig.atan2(trig.sin(p), trig.cos(p));
            -trig.pi <= read <= trig.pi && Congruent(trig.pi, read, p)
  {
    if p == -trig.pi {
      assert trig.atan2(trig.sin(trig.pi), trig.cos(trig.pi)) == trig.pi;
      assert trig.pi == p + Turns(trig.pi, 1);
    } else {
      assert trig.atan2(trig.sin(p), trig.cos(p)) == p + Turns(trig.pi, 0);
    }
  }

  lemma AdvanceIsSmall(pi: real, cfg: Config, f: real)
    requires cfg.IsUsable() && pi > 0.0 && (f == cfg.frequencyDev || f == -cfg.frequencyDev)
    ensures -pi < Advance(pi, cfg, f) < pi
    ensures Advance(pi, cfg, f) * cfg.sampleRate / (2.0 * pi) == f
  {
    var r, a := cfg.sampleRate, Advance(pi, cfg, f);
    assert a * r == 2.0 * pi * f;
    assert (2.0 * pi * f) / (2.0 * pi) == f;
    assert pi * (r - 2.0 * f) > 0.0 && pi * (r + 2.0 * f) > 0.0;
    assert (pi - a) * r == pi * (r - 2.0 * f) && (a + pi) * r == pi * (r + 2.0 * f);
    PositiveFactor(pi - a, r);
    PositiveFactor(a + pi, r);
  }

  lemma PositiveFactor(x: real, r: real)
    requires r > 0.0 && x * r > 0.0
    ensures x > 0.0
  {
    assert x == (x * r) / r;
  }

  /** Unwrapping is exact: the only angle in [-pi, pi] congruent to the difference of the two
      phases read is the advance itself, when that is below half a turn. */
  lemma UnwrapIsExact(pi: real, p: real, q: real, rp: real, rq: real, a: real, diff: real)
    requires pi > 0.0 && -pi <= diff <= pi && -pi < a < pi
    requires Congruent(pi, rp, p) && Congruent(pi, rq, q) && Congruent(pi, q, p + a)
    requires Congruent(pi, diff, rq - rp)
    ensures diff == a
  {
    hide Congruent, Turns;
    CongruentTrans(pi, rq, q, p + a);
    CongruentDifference(pi, rq, p + a, rp, p);
    assert (p + a) - p == a;
    CongruentTrans(pi, diff, rq - rp, a);
    CongruentUnique(pi, diff, a);
  }

  function ReadPhase(trig: Trig, s: IQSample): real { trig.atan2(s.q, s.i) }

  /** diff is the phase difference of two samples brought into [-pi, pi] by whole turns. */
  ghost predicate Unwrapped(trig: Trig, s: IQSample, t: IQSample, diff: real) {
    -trig.pi <= diff <= trig.pi && Congruent(trig.pi, diff, ReadPhase(trig, t) - ReadPhase(trig, s))
  }

  /** Turns per sample times the sample rate. */
  function FrequencyOf(trig: Trig, cfg: Config, diff: real): real
    requires trig.pi > 0.0
  {
    diff * cfg.sampleRate / (2.0 * trig.pi)
  }

  /** One difference of the discriminator gives back the sample's frequency. */
  lemma DiscriminatorStep(trig: Trig, cfg: Config, p: real, q: real, f: real, s: IQSample, t: IQSample, diff: real)
    requires trig.Lawful() && cfg.IsUsable() && (f == cfg.frequencyDev || f == -cfg.frequencyDev)
    requires -trig.pi <= p <= trig.pi && -trig.pi <= q <= trig.pi
    requires s == IQSample(trig.cos(p), trig.sin(p)) && t == IQSample(trig.cos(q), trig.sin(q))
    requires Congruent(trig.pi, q, p + Advance(trig.pi, cfg, f)) && Unwrapped(trig, s, t, diff)
    ensures FrequencyOf(trig, cfg, diff) == f
  {
    hide Congruent, Advance;
    PhaseOfSample(trig, p);
    PhaseOfSample(trig, q);
    AdvanceIsSmall(trig.pi, cfg, f);
    UnwrapIsExact(trig.pi, p, q, ReadPhase(trig, s), ReadPhase(trig, t), Advance(trig.pi, cfg, f), diff);
  }

  ghost predicate IsFrequency(trig: Trig, cfg: Config, s: IQSample, t: IQSample, f: real)
    requires trig.pi > 0.0
  {
    exists diff :: Unwrapped(trig, s, t, diff) && f == FrequencyOf(trig, cfg, diff)
  }

  ghost predicate Discriminated(trig: Trig, cfg: Config, samples: seq<IQSample>, found: seq<real>)
    requires trig.pi > 0.0
  {
    |found| + 1 == |samples| &&
    forall k :: 0 <= k < |found| ==> IsFrequency(trig, cfg, samples[k], samples[k + 1], found[k])
  }

  /** Phases, unwrapped differences, frequencies: the first half of demodulateFSK. */
  method Discriminate(trig: Trig, cfg: Config, samples: seq<IQSample>) returns (freqs: seq<real>)
    requires trig.Lawful() && samples != []
    ensures Discriminated(trig, cfg, samples, freqs)
  {
    hide Congruent;
    var phases: seq<real> := [];
    for i := 0 to |samples|
      invariant |phases| == i && forall k :: 0 <= k < i ==> phases[k] == ReadPhase(trig, samples[k])
    {
      phases := phases + [trig.atan2(samples[i].q, samples[i].i)];
    }
    freqs := [];
    for i := 0 to |samples| - 1
      invariant |freqs| == i
      invariant forall k :: 0 <= k < i ==> IsFrequency(trig, cfg, samples[k], samples[k + 1], freqs[k])
    {
      var diff := Wrap(trig.pi, phases[i + 1] - phases[i]);
      assert Unwrapped(trig, samples[i], samples[i + 1], diff);
      freqs := freqs + [FrequencyOf(trig, cfg, diff)];
      assert IsFrequency(trig, cfg, samples[i], samples[i + 1], freqs[i]);
    }
  }

  method DemodulateFSK(trig: Trig, cfg: Config, samples: seq<IQSample>)
    returns (data: seq<Byte>, ghost found: seq<real>)
    requires trig.Lawful() && cfg.samplesPerSym > 0
    ensures samples == [] ==> data == []
    ensures samples != [] ==> Discriminated(trig, cfg, samples, found)
                              && data == BitsToBytes(DecidedBits(found, cfg.samplesPerSym, true))
  {
    found := [];
    if |samples| == 0 {
      return [], found;
    }
    var freqs := Discriminate(trig, cfg, samples);
    found := freqs;
    var decisions := DecideLoop(freqs, cfg.samplesPerSym, true);
    data := PackBits(AsBits(decisions));
  }

  /** On a modulated waveform the discriminator returns the tones, the first sample missing. */
  lemma DiscriminatorRecoversTones(trig: Trig, cfg: Config, start: real, freqs: seq<real>,
                                   phases: seq<real>, samples: seq<IQSample>, found: seq<real>)
    requires trig.Lawful() && cfg.IsUsable() && samples != []
    requires Follows(trig, cfg, start, freqs, phases, samples) && Discriminated(trig, cfg, samples, found)
    requires forall k :: 0 <= k < |freqs| ==> freqs[k] == cfg.frequencyDev || freqs[k] == -cfg.frequencyDev
    ensures found == freqs[1..]
  {
    assert trig.pi > 0.0 by { assert trig.Lawful(); }
    hide Congruent, Advance, FrequencyOf, Unwrapped;
    forall k | 0 <= k < |found| ensures found[k] == freqs[k + 1] {
      assert IsFrequency(trig, cfg, samples[k], samples[k + 1], found[k]);
      var diff :| Unwrapped(trig, samples[k], samples[k + 1], diff) && found[k] == FrequencyOf(trig, cfg, diff);
      DiscriminatorStep(trig, cfg, phases[k], phases[k + 1], freqs[k + 1], samples[k], samples[k + 1], diff);
    }
  }

  // ---------------------------------------------------------------------- decisions

  /** A 1 directly followed by a 0. */
  predicate HasFall(bits: seq<Bit>) {
    exists k :: 0 <= k < |bits| - 1 && bits[k] == 1 && bits[k + 1] == 0
  }

  /** One averaging window: n - 1 samples of this symbol and one of the next. */
  lemma WindowSum(x: real, n: nat, y: real)
    requires n > 0
    ensures Sum(Repeat(x, n - 1) + [y]) == x * (n - 1) as real + y
  {
    var w := Repeat(x, n - 1) + [y];
    assert w[..n - 1] == Repeat(x, n - 1);
    SumRepeat(x, n - 1);
  }

  lemma FrequenciesUnfold(cfg: Config, bits: seq<Bit>)
    requires bits != []
    ensures Frequencies(cfg, bits)
            == Repeat(Tone(cfg, bits[0]), cfg.samplesPerSym) + Frequencies(cfg, bits[1..])
  {
    assert Tones(cfg, bits)[1..] == Tones(cfg, bits[1..]);
  }

  /** Dropping the first sample shifts every window one sample into the next symbol. */
  lemma ShiftedWindows(cfg: Config, bits: seq<Bit>)
    requires cfg.samplesPerSym > 1 && bits != []
    ensures var n := cfg.samplesPerSym;
            var f := Frequencies(cfg, bits);
            f != [] &&
            if |bits| == 1 then f[1..] == Repeat(Tone(cfg, bits[0]), n - 1)
            else
              var g := Frequencies(cfg, bits[1..]);
              g != [] && f[1..] == (Repeat(Tone(cfg, bits[0]), n - 1) + [Tone(cfg, bits[1])]) + g[1..]
  {
    hide Tone;
    var n, g := cfg.samplesPerSym, Frequencies(cfg, bits[1..]);
    FrequenciesUnfold(cfg, bits);
    if |bits| == 1 {
      assert g == [];
    } else {
      FrequenciesUnfold(cfg, bits[1..]);
      assert g[0] == Tone(cfg, bits[1]) && g == [g[0]] + g[1..];
    }
  }

  lemma WindowSign(cfg: Config, b: Bit, c: Bit, n: nat)
    requires cfg.IsUsable() && n >= 2
    ensures Tone(cfg, b) * (n - 1) as real > 0.0 <==> b == 1
    ensures Tone(cfg, b) * (n - 1) as real + Tone(cfg, c) > 0.0 <==> b == 1 && (c == 1 || n >= 3)
  {
    var d, m := cfg.frequencyDev, (n - 1) as real;
    AtLeast(d, m, 1.0);
    if n >= 3 {
      AtLeast(d, m, 2.0);
    }
    assert -d * m == -(d * m);
  }

  lemma AtLeast(d: real, m: real, k: real)
    requires d > 0.0 && m >= k
    ensures d * m >= d * k
  {
  }

  /** With at least two samples a symbol, the decisions are the bits exactly when there are
      three or more, or no 1 is followed by a 0. */
  lemma {:induction false} DecisionsExactly(cfg: Config, bits: seq<Bit>)
    requires cfg.IsUsable() && cfg.samplesPerSym >= 2 && bits != []
    ensures Frequencies(cfg, bits) != []
    ensures var got := DecidedBits(Frequencies(cfg, bits)[1..], cfg.samplesPerSym, true);
            |got| == |bits| && (got == bits <==> cfg.samplesPerSym >= 3 || !HasFall(bits))
    decreases |bits|
  {
    hide DecidedBits, Frequencies, Tone, HasFall;
    var n, x := cfg.samplesPerSym, Tone(cfg, bits[0]);
    ShiftedWindows(cfg, bits);
    if |bits| == 1 {
      LastSymbol(cfg, bits[0]);
      NoFallAlone(bits);
      assert bits == [bits[0]];
    } else {
      var rest := Frequencies(cfg, bits[1..])[1..];
      InnerSymbol(cfg, bits[0], bits[1], rest);
      DecisionsExactly(cfg, bits[1..]);
      FallSplits(bits);
      HeadAndTail(bits, if bits[0] == 1 && (bits[1] == 1 || n >= 3) then 1 else 0, DecidedBits(rest, n, true));
    }
  }

  /** The last symbol's window is one sample short. */
  lemma LastSymbol(cfg: Config, b: Bit)
    requires cfg.IsUsable() && cfg.samplesPerSym >= 2
    ensures DecidedBits(Repeat(Tone(cfg, b), cfg.samplesPerSym - 1), cfg.samplesPerSym, true) == [b]
  {
    hide DecidedBits, Tone;
    var n, x := cfg.samplesPerSym, Tone(cfg, b);
    WindowSign(cfg, b, b, n);
    SumRepeat(x, n - 1);
    DecidedFirst(Repeat(x, n - 1), [], n, true);
    assert Repeat(x, n - 1) + [] == Repeat(x, n - 1);
    DecidedNothing(n);
  }

  /** Any other symbol's window takes in the first sample of the next symbol. */
  lemma InnerSymbol(cfg: Config, b: Bit, c: Bit, rest: seq<real>)
    requires cfg.IsUsable() && cfg.samplesPerSym >= 2
    ensures var n := cfg.samplesPerSym;
            DecidedBits((Repeat(Tone(cfg, b), n - 1) + [Tone(cfg, c)]) + rest, n, true)
            == [if b == 1 && (c == 1 || n >= 3) then 1 else 0] + DecidedBits(rest, n, true)
  {
    hide DecidedBits, Tone;
    var n := cfg.samplesPerSym;
    WindowSign(cfg, b, c, n);
    WindowSum(Tone(cfg, b), n, Tone(cfg, c));
    DecidedFirst(Repeat(Tone(cfg, b), n - 1) + [Tone(cfg, c)], rest, n, true);
  }

  lemma NoFallAlone(bits: seq<Bit>)
    requires |bits| == 1
    ensures !HasFall(bits)
  {
  }

  lemma DecidedNothing(n: nat)
    requires n > 0
    ensures DecidedBits([], n, true) == []
  {
  }

  lemma FallSplits(bits: seq<Bit>)
    requires |bits| > 1
    ensures HasFall(bits) <==> (bits[0] == 1 && bits[1] == 0) || HasFall(bits[1..])
  {
    if HasFall(bits) && !(bits[0] == 1 && bits[1] == 0) {
      var k :| 0 <= k < |bits| - 1 && bits[k] == 1 && bits[k + 1] == 0;
      assert bits[1..][k - 1] == 1 && bits[1..][k - 1 + 1] == 0;
    }
    if HasFall(bits[1..]) {
      var k :| 0 <= k < |bits[1..]| - 1 && bits[1..][k] == 1 && bits[1..][k + 1] == 0;
      assert bits[k + 1] == 1 && bits[k + 1 + 1] == 0;
    }
  }

  lemma FrequenciesAreTones(cfg: Config, bits: seq<Bit>)
    ensures forall k :: 0 <= k < |Frequencies(cfg, bits)| ==>
              Frequencies(cfg, bits)[k] == cfg.frequencyDev || Frequencies(cfg, bits)[k] == -cfg.frequencyDev
    decreases |bits|
  {
    if bits != [] {
      FrequenciesAreTones(cfg, bits[1..]);
      FrequenciesUnfold(cfg, bits);
    }
  }

  // ------------------------------------------------------- one sample per symbol

  predicate HasOne(bits: seq<Bit>) {
    exists k :: 0 <= k < |bits| && bits[k] == 1
  }

  lemma NoTones(cfg: Config)
    ensures Frequencies(cfg, []) == []
  {
    assert Tones(cfg, []) == [];
  }

  lemma {:induction false} OneSampleDecisions(cfg: Config, bits: seq<Bit>)
    requires cfg.IsUsable() && cfg.samplesPerSym == 1
    ensures DecidedBits(Frequencies(cfg, bits), 1, true) == bits
    decreases |bits|
  {
    hide DecidedBits, Frequencies;
    if bits == [] {
      assert Frequencies(cfg, bits) == [] by { NoTones(cfg); }
      DecidedNothing(1);
    } else {
      var x := Tone(cfg, bits[0]);
      FrequenciesUnfold(cfg, bits);
      OneSampleDecisions(cfg, bits[1..]);
      assert Repeat(x, 1) == [x] && Sum([x]) == x;
      DecidedFirst([x], Frequencies(cfg, bits[1..]), 1, true);
      assert bits == [bits[0]] + bits[1..];
    }
  }

  /** With the first bit lost and a zero moved in at the end, only all-zero data is unchanged. */
  lemma ShiftedBytes(data: seq<Byte>)
    requires data != []
    ensures BitsToBytes(BytesToBits(data)[1..]) == data <==> !HasOne(BytesToBits(data))
  {
    hide BitsToBytes, BytesToBits;
    var bits := BytesToBits(data);
    BitTotal(data);
    var back := BytesToBits(BitsToBytes(bits[1..]));
    PackUnpack(data);
    PackUnpack(BitsToBytes(bits[1..]));
    UnpackPack(bits[1..]);
    BitTotal(BitsToBytes(bits[1..]));
    assert |back| == |bits|;
    if back == bits && HasOne(bits) {
      var k :| 0 <= k < |bits| && bits[k] == 1;
      OnesPropagate(bits, k);
    }
    if !HasOne(bits) {
      assert forall k :: 0 <= k < |bits| ==> back[k] == bits[k];
      assert back == bits;
    }
  }

  lemma OnesPropagate(bits: seq<Bit>, k: nat)
    requires k < |bits| && bits[k] == 1
    requires forall j :: 0 <= j < |bits| - 1 ==> bits[j] == bits[j + 1]
    ensures bits[|bits| - 1] == 1
    decreases |bits| - k
  {
    if k < |bits| - 1 {
      OnesPropagate(bits, k + 1);
    }
  }

  // ---------------------------------------------------------------- the whole modem

  /** When the averaging windows, which start one sample late, still decide every bit. */
  predicate WindowsSuffice(samplesPerSym: nat, bits: seq<Bit>) {
    if samplesPerSym >= 3 then true
    else if samplesPerSym == 2 then !HasFall(bits)
    else !HasOne(bits)
  }

  lemma BytesDecidedExactly(cfg: Config, data: seq<Byte>)
    requires cfg.IsUsable() && data != []
    ensures Frequencies(cfg, BytesToBits(data)) != []
    ensures BitsToBytes(DecidedBits(Frequencies(cfg, BytesToBits(data))[1..], cfg.samplesPerSym, true)) == data
            <==> WindowsSuffice(cfg.samplesPerSym, BytesToBits(data))
  {
    hide DecidedBits, HasFall, HasOne, Frequencies, BitsToBytes;
    var n, bits := cfg.samplesPerSym, BytesToBits(data);
    FrequenciesUnfold(cfg, bits);
    if n >= 2 {
      DecisionsExactly(cfg, bits);
      DecodedBytes(data, DecidedBits(Frequencies(cfg, bits)[1..], n, true));
    } else {
      var x := Tone(cfg, bits[0]);
      assert Repeat(x, 1) == [x];
      assert Frequencies(cfg, bits)[1..] == Frequencies(cfg, bits[1..]);
      OneSampleDecisions(cfg, bits[1..]);
      ShiftedBytes(data);
    }
  }

  /** From any starting phase, what comes out is what went in exactly when a symbol has at
      least three samples, or has two and the data has no 1 followed by a 0, or has one and
      the data is all zeros. */
  method FskRoundTrip(trig: Trig, modulator: Modulator, data: seq<Byte>) returns (got: seq<Byte>)
    requires trig.Lawful() && modulator.cfg.IsUsable()
    modifies modulator
    ensures got == data <==> WindowsSuffice(modulator.cfg.samplesPerSym, BytesToBits(data))
    ensures data != [] ==> -trig.pi <= modulator.phase <= trig.pi
  {
    ghost var start := modulator.phase;
    ghost var bits := BytesToBits(data);
    var cfg := modulator.cfg;
    FrequenciesAreTones(cfg, bits);
    ghost var phases;
    var samples;
    samples, phases := modulator.ModulateFSK(trig, data);
    ghost var found;
    got, found := DemodulateFSK(trig, cfg, samples);
    if data != [] {
      BytesDecidedExactly(cfg, data);
      DiscriminatorRecoversTones(trig, cfg, start, Frequencies(cfg, bits), phases, samples, found);
    }
  }
}
