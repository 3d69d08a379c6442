/** IQ samples and the trigonometry the modem relies on (pkg/iq/types.go), over the reals. */
module Iq {
  import opened Prelude
  import opened IqBits

  datatype IQSample = IQSample(i: real, q: real)

  /** The trigonometric functions as parameters, with the facts used about them. */
  datatype Trig = Trig(pi: real, cos: real -> real, sin: real -> real, atan2: (real, real) -> real)
  {
    ghost predicate Lawful() {
      && 3.0 < pi < 4.0
      && cos(0.0) == 1.0 && sin(0.0) == 0.0 && cos(pi) == -1.0 && sin(pi) == 0.0
      && cos(-pi) == cos(pi) && sin(-pi) == sin(pi)
      && forall x :: -pi < x <= pi ==> atan2(sin(x), cos(x)) == x
    }
  }

  function Repeat<T>(x: T, n: nat): (r: seq<T>)
    ensures |r| == n && forall k :: 0 <= k < n ==> r[k] == x
  {
    seq(n, _ => x)
  }

  /** Each symbol held for n samples. */
  function Expand<T>(symbols: seq<T>, n: nat): seq<T> {
    if symbols == [] then [] else Repeat(symbols[0], n) + Expand(symbols[1..], n)
  }

  lemma ExpandUnfold<T>(symbols: seq<T>, k: nat, n: nat)
    requires k < |symbols|
    ensures Expand(symbols[k..], n) == Repeat(symbols[k], n) + Expand(symbols[k + 1..], n)
  {
    assert symbols[k..][1..] == symbols[k + 1..];
  }

  lemma ExpandNothing<T>(symbols: seq<T>, n: nat)
    requires symbols == []
    ensures Expand(symbols, n) == []
  {
  }

  function Sum(xs: seq<real>): real {
    if xs == [] then 0.0 else Sum(xs[..|xs| - 1]) + xs[|xs| - 1]
  }

  lemma {:induction false} SumRepeat(x: real, n: nat)
    ensures Sum(Repeat(x, n)) == x * n as real
  {
    if n > 0 {
      SumRepeat(x, n - 1);
      assert Repeat(x, n)[..n - 1] == Repeat(x, n - 1);
      assert x * n as real == x * (n - 1) as real + x;
    }
  }

  /** Dividing by a positive count does not change a sum's sign. */
  lemma MeanSign(sum: real, count: nat)
    requires count > 0
    ensures sum / count as real > 0.0 <==> sum > 0.0
  {
    var mean, c := sum / count as real, count as real;
    assert mean * c == sum;
    if mean > 0.0 {
      assert mean * c > 0.0;
    } else {
      assert mean * c <= 0.0;
    }
  }

  function Min(a: nat, b: nat): nat { if a <= b then a else b }

  /** The symbol decisions of both demodulators: one bit per window of n values (the last may
      be short), from the sign of the window's mean; `positive` is the bit for a positive mean. */
  function Decide(xs: seq<real>, n: nat, positive: bool): seq<bool>
    requires n > 0
    decreases |xs|
  {
    if xs == [] then []
    else
      var m := Min(n, |xs|);
      [(Sum(xs[..m]) > 0.0) == positive] + Decide(xs[m..], n, positive)
  }

  lemma DecideUnfold(xs: seq<real>, i: nat, n: nat, positive: bool)
    requires n > 0 && i < |xs|
    ensures var m := Min(n, |xs| - i);
            Decide(xs[i..], n, positive)
            == [(Sum(xs[i..i + m]) > 0.0) == positive] + Decide(xs[i + m..], n, positive)
  {
    var m := Min(n, |xs| - i);
    assert xs[i..][..m] == xs[i..i + m] && xs[i..][m..] == xs[i + m..];
  }

  /** The end of window k: n samples on, or the end of the samples if that comes first. */
  function WindowEnd(total: nat, n: nat, k: nat): nat {
    if (k + 1) * n <= total then (k + 1) * n else total
  }

  /** Decision k is the sign of the sum of its own window, from sample kn. */
  lemma {:induction false} DecisionAt(xs: seq<real>, n: nat, positive: bool, k: nat)
    requires n > 0
    ensures k < |Decide(xs, n, positive)| <==> k * n < |xs|
    ensures k * n < |xs| ==>
              k * n <= WindowEnd(|xs|, n, k) <= |xs| &&
              Decide(xs, n, positive)[k] == ((Sum(xs[k * n..WindowEnd(|xs|, n, k)]) > 0.0) == positive)
    decreases k
  {
    hide Sum, Decide;
    var m := Min(n, |xs|);
    DecideParts(xs, n, positive);
    if k == 0 {
      assert xs[0..m] == xs[..m];
    } else if xs != [] {
      DecisionAt(xs[m..], n, positive, k - 1);
      LaterWindow(|xs|, n, k);
      if k * n < |xs| {
        var hi := WindowEnd(|xs|, n, k);
        assert xs[k * n..hi] == xs[m..][(k - 1) * n..hi - m];
      }
    }
  }

  lemma DecideParts(xs: seq<real>, n: nat, positive: bool)
    requires n > 0
    ensures xs == [] ==> Decide(xs, n, positive) == []
    ensures xs != [] ==>
              var m := Min(n, |xs|);
              var first, later := Decide(xs, n, positive), Decide(xs[m..], n, positive);
              && |first| == 1 + |later| && first[0] == ((Sum(xs[..m]) > 0.0) == positive)
              && forall k :: 0 <= k < |later| ==> first[k + 1] == later[k]
  {
    hide Sum;
  }

  lemma LaterWindow(total: nat, n: nat, k: nat)
    requires n > 0 && k > 0 && total > 0
    ensures var m := Min(n, total);
            && (k * n < total <==> (k - 1) * n < total - m)
            && (k * n < total ==> m == n && k * n == (k - 1) * n + n && k * n <= WindowEnd(total, n, k) <= total
                                  && WindowEnd(total, n, k) == WindowEnd(total - n, n, k - 1) + n)
  {
    assert (k - 1) * n == k * n - n && (k + 1) * n == k * n + n;
    assert k * n >= n;
  }

  /** Sample k of held symbols is symbol k / n. */
  lemma {:induction false} ExpandAt<T>(symbols: seq<T>, n: nat, s: nat, i: nat)
    requires s < |symbols| && i < n
    ensures s * n + i < |Expand(symbols, n)| && Expand(symbols, n)[s * n + i] == symbols[s]
  {
    assert Expand(symbols, n) == Repeat(symbols[0], n) + Expand(symbols[1..], n);
    if s > 0 {
      ExpandAt(symbols[1..], n, s - 1, i);
      assert (s - 1) * n + i == s * n + i - n;
      assert s * n >= n;
    }
  }

  lemma {:induction false} ExpandLength<T>(symbols: seq<T>, n: nat)
    ensures |Expand(symbols, n)| == |symbols| * n
  {
    if symbols != [] {
      ExpandLength(symbols[1..], n);
      assert |symbols| * n == n + (|symbols| - 1) * n;
    }
  }

  /** The windowed averaging loop. */
  method DecideLoop(xs: seq<real>, n: nat, positive: bool) returns (bits: seq<bool>)
    requires n > 0
    ensures bits == Decide(xs, n, positive)
  {
    hide Decide;
    bits := [];
    var i := 0;
    assert xs[0..] == xs;
    assert [] + Decide(xs, n, positive) == Decide(xs, n, positive);
    while i < |xs|
      invariant 0 <= i <= |xs|
      invariant bits + Decide(xs[i..], n, positive) == Decide(xs, n, positive)
    {
      DecideUnfold(xs, i, n, positive);
      var average, count := WindowMean(xs, i, n);
      bits := bits + [(average > 0.0) == positive];
      i := i + count;
    }
    DecideNothing(xs[i..], n, positive);
  }

  lemma DecideNothing(xs: seq<real>, n: nat, positive: bool)
    requires n > 0 && xs == []
    ensures Decide(xs, n, positive) == []
  {
  }

  /** Running sum over one symbol period, and its average. */
  method WindowMean(xs: seq<real>, i: nat, n: nat) returns (average: real, count: nat)
    requires n > 0 && i < |xs|
    ensures count == Min(n, |xs| - i)
    ensures average > 0.0 <==> Sum(xs[i..i + count]) > 0.0
  {
    var sum := 0.0;
    count := 0;
    while count < n && i + count < |xs|
      invariant count <= Min(n, |xs| - i) && sum == Sum(xs[i..i + count])
    {
      assert xs[i..i + count + 1][..count] == xs[i..i + count];
      sum := sum + xs[i + count];
      count := count + 1;
    }
    average := sum / count as real;
    MeanSign(sum, count);
  }

  // ---------------------------------------------------------- decisions as bits

  function AsBits(decisions: seq<bool>): (r: seq<Bit>)
    ensures |r| == |decisions| && forall k :: 0 <= k < |r| ==> r[k] == if decisions[k] then 1 else 0
  {
    seq(|decisions|, k requires 0 <= k < |decisions| => if decisions[k] then 1 else 0)
  }

  function DecidedBits(xs: seq<real>, n: nat, positive: bool): seq<Bit>
    requires n > 0
  {
    AsBits(Decide(xs, n, positive))
  }

  /** The first window decides the first bit. */
  lemma DecidedFirst(window: seq<real>, rest: seq<real>, n: nat, positive: bool)
    requires 0 < |window| <= n && (|window| == n || rest == [])
    ensures DecidedBits(window + rest, n, positive) ==
            [if (Sum(window) > 0.0) == positive then 1 else 0] + DecidedBits(rest, n, positive)
  {
    hide Decide, Sum, AsBits;
    var xs := window + rest;
    assert xs[0..] == xs && Min(n, |xs|) == |window| && xs[0..|window|] == window && xs[|window|..] == rest;
    DecideUnfold(xs, 0, n, positive);
    AsBitsCons((Sum(window) > 0.0) == positive, Decide(rest, n, positive));
  }

  lemma AsBitsCons(d: bool, ds: seq<bool>)
    ensures AsBits([d] + ds) == [if d then 1 else 0] + AsBits(ds)
  {
  }

  lemma HeadAndTail(bits: seq<Bit>, head: Bit, tail: seq<Bit>)
    requires bits != []
    ensures bits == [head] + tail <==> bits[0] == head && bits[1..] == tail
  {
    assert ([head] + tail)[1..] == tail && bits == [bits[0]] + bits[1..];
  }

  /** Decisions pack to the sent bytes exactly when they are the sent bits. */
  lemma DecodedBytes(data: seq<Byte>, got: seq<Bit>)
    requires |got| == |BytesToBits(data)|
    ensures BitsToBytes(got) == data <==> got == BytesToBits(data)
  {
    PackUnpack(data);
    UnpackPack(got);
    if BitsToBytes(got) == data {
      assert got == BytesToBits(data);
    }
  }
}
