/** The trial space: four option lists and their Cartesian product, walked
    by four nested loops (grey flag outermost, then contrast, then
    brightness, then blur innermost). */
module Enumeration {
  import opened Transform

  datatype Options = Options(grayscales: seq<bool>, contrasts: seq<real>, brightnesses: seq<int>, blurs: seq<int>)

  /** Number of trials the four lists describe. */
  function TrialCount(o: Options): nat
  {
    |o.grayscales| * |o.contrasts| * |o.brightnesses| * |o.blurs|
  }

  /** Peeling one block of m off n blocks of m. */
  lemma MulSucc(n: nat, m: nat)
    requires 0 < n
    ensures n * m == m + (n - 1) * m
  {
  }

  /** The product of four lengths does not depend on how it is bracketed. */
  lemma Assoc4(a: nat, b: nat, c: nat, d: nat)
    ensures a * b * c * d == a * (b * (c * d))
  {
    assert a * b * c == a * (b * c);
    assert a * (b * c) * d == a * ((b * c) * d);
  }

  /** Innermost loop: one trial per blur value. */
  function BlurLoop(g: bool, c: real, b: int, ls: seq<int>): (r: seq<Params>)
    ensures |r| == |ls|
    ensures forall l :: 0 <= l < |ls| ==> r[l] == Params(g, c, b, ls[l])
    decreases |ls|
  {
    if |ls| == 0 then [] else [Params(g, c, b, ls[0])] + BlurLoop(g, c, b, ls[1..])
  }

  function BrightnessLoop(g: bool, c: real, bs: seq<int>, ls: seq<int>): (r: seq<Params>)
    ensures |r| == |bs| * |ls|
    decreases |bs|
  {
    if |bs| == 0 then []
    else
      var rest := BrightnessLoop(g, c, bs[1..], ls);
      MulSucc(|bs|, |ls|);
      BlurLoop(g, c, bs[0], ls) + rest
  }

  function ContrastLoop(g: bool, cs: seq<real>, bs: seq<int>, ls: seq<int>): (r: seq<Params>)
    ensures |r| == |cs| * (|bs| * |ls|)
    decreases |cs|
  {
    if |cs| == 0 then []
    else
      var rest := ContrastLoop(g, cs[1..], bs, ls);
      MulSucc(|cs|, |bs| * |ls|);
      BrightnessLoop(g, cs[0], bs, ls) + rest
  }

  function GrayscaleLoop(gs: seq<bool>, cs: seq<real>, bs: seq<int>, ls: seq<int>): (r: seq<Params>)
    ensures |r| == |gs| * (|cs| * (|bs| * |ls|))
    decreases |gs|
  {
    if |gs| == 0 then []
    else
      var rest := GrayscaleLoop(gs[1..], cs, bs, ls);
      MulSucc(|gs|, |cs| * (|bs| * |ls|));
      ContrastLoop(gs[0], cs, bs, ls) + rest
  }

  /** Every trial of the run, in the order the nested loops visit them. */
  function Trials(o: Options): (r: seq<Params>)
    ensures |r| == TrialCount(o)
  {
    var r := GrayscaleLoop(o.grayscales, o.contrasts, o.brightnesses, o.blurs);
    Assoc4(|o.grayscales|, |o.contrasts|, |o.brightnesses|, |o.blurs|);
    r
  }

  /** Position i*m + j of a concatenation whose head block has length m. */
  lemma BlockAt<T>(head: seq<T>, rest: seq<T>, m: nat, i: nat, j: nat)
    requires |head| == m && j < m && 0 < i
    requires (i - 1) * m + j < |rest|
    ensures i * m + j < |head + rest| && (head + rest)[i * m + j] == rest[(i - 1) * m + j]
  {
    MulSucc(i, m);
  }

  /** a*m + b stays below A*m when a < A and b < m. */
  lemma MixedBound(a: nat, A: nat, b: nat, m: nat)
    requires a < A && b < m
    ensures a * m + b < A * m
  {
    assert (a + 1) * m == a * m + m;
    assert (a + 1) * m <= A * m;
  }

  lemma {:induction false} BrightnessLoopAt(g: bool, c: real, bs: seq<int>, ls: seq<int>, k: nat, l: nat)
    requires k < |bs| && l < |ls|
    ensures k * |ls| + l < |BrightnessLoop(g, c, bs, ls)|
    ensures BrightnessLoop(g, c, bs, ls)[k * |ls| + l] == Params(g, c, bs[k], ls[l])
    decreases k
  {
    MixedBound(k, |bs|, l, |ls|);
    if k > 0 {
      BrightnessLoopAt(g, c, bs[1..], ls, k - 1, l);
      BlockAt(BlurLoop(g, c, bs[0], ls), BrightnessLoop(g, c, bs[1..], ls), |ls|, k, l);
    }
  }

  lemma {:induction false} ContrastLoopAt(g: bool, cs: seq<real>, bs: seq<int>, ls: seq<int>, m: nat, j: nat, n: nat, k: nat, l: nat)
    requires j < |cs| && k < |bs| && l < |ls| && m == |bs| * |ls| && n == k * |ls| + l
    ensures n < m
    ensures j * m + n < |ContrastLoop(g, cs, bs, ls)|
    ensures ContrastLoop(g, cs, bs, ls)[j * m + n] == Params(g, cs[j], bs[k], ls[l])
    decreases j
  {
    MixedBound(k, |bs|, l, |ls|);
    MixedBound(j, |cs|, n, m);
    if j > 0 {
      ContrastLoopAt(g, cs[1..], bs, ls, m, j - 1, n, k, l);
      BlockAt(BrightnessLoop(g, cs[0], bs, ls), ContrastLoop(g, cs[1..], bs, ls), m, j, n);
      assert cs[1..][j - 1] == cs[j];
    } else {
      assert j * m == 0;
      BrightnessLoopAt(g, cs[0], bs, ls, k, l);
    }
  }

  lemma {:induction false} GrayscaleLoopAt(gs: seq<bool>, cs: seq<real>, bs: seq<int>, ls: seq<int>,
                                           M: nat, i: nat, N: nat, m: nat, j: nat, n: nat, k: nat, l: nat)
    requires i < |gs| && j < |cs| && k < |bs| && l < |ls|
    requires m == |bs| * |ls| && n == k * |ls| + l
    requires M == |cs| * m && N == j * m + n
    ensures N < M
    ensures i * M + N < |GrayscaleLoop(gs, cs, bs, ls)|
    ensures GrayscaleLoop(gs, cs, bs, ls)[i * M + N] == Params(gs[i], cs[j], bs[k], ls[l])
    decreases i
  {
    MixedBound(k, |bs|, l, |ls|);
    MixedBound(j, |cs|, n, m);
    MixedBound(i, |gs|, N, M);
    if i > 0 {
      GrayscaleLoopAt(gs[1..], cs, bs, ls, M, i - 1, N, m, j, n, k, l);
      BlockAt(ContrastLoop(gs[0], cs, bs, ls), GrayscaleLoop(gs[1..], cs, bs, ls), M, i, N);
    } else {
      ContrastLoopAt(gs[0], cs, bs, ls, m, j, n, k, l);
      assert i * M + N == N;
    }
  }

  lemma Radix(i: int, j: int, k: int, l: int, C: int, B: int, L: int)
    ensures ((i * C + j) * B + k) * L + l == i * (C * (B * L)) + (j * (B * L) + (k * L + l))
  {
    assert ((i * C + j) * B + k) * L == (i * C + j) * B * L + k * L;
    assert (i * C + j) * B * L == i * C * B * L + j * B * L;
    assert i * C * B * L == i * (C * (B * L));
    assert j * B * L == j * (B * L);
  }

  /** Where the nested loops place the combination of the i-th grey flag,
      j-th contrast, k-th brightness and l-th blur. */
  function Position(o: Options, i: nat, j: nat, k: nat, l: nat): nat
  {
    ((i * |o.contrasts| + j) * |o.brightnesses| + k) * |o.blurs| + l
  }

  /** Mixed-radix order of the trials: position ((i*C + j)*B + k)*L + l
      holds the i-th grey flag, the j-th contrast, the k-th brightness and
      the l-th blur (C, B, L being the lengths of the contrast, brightness
      and blur lists), so the grey flag varies slowest and blur fastest. */
  lemma TrialAt(o: Options, i: nat, j: nat, k: nat, l: nat)
    requires i < |o.grayscales| && j < |o.contrasts| && k < |o.brightnesses| && l < |o.blurs|
    ensures Position(o, i, j, k, l) < |Trials(o)|
    ensures Trials(o)[Position(o, i, j, k, l)] == Params(o.grayscales[i], o.contrasts[j], o.brightnesses[k], o.blurs[l])
  {
    var C, B, L := |o.contrasts|, |o.brightnesses|, |o.blurs|;
    var m := B * L;
    var n := k * L + l;
    var M := C * m;
    var N := j * m + n;
    PositionSplit(o, i, j, k, l, m, n, M, N);
    GrayscaleLoopAt(o.grayscales, o.contrasts, o.brightnesses, o.blurs, M, i, N, m, j, n, k, l);
    assert Trials(o) == GrayscaleLoop(o.grayscales, o.contrasts, o.brightnesses, o.blurs);
  }

  lemma PositionSplit(o: Options, i: nat, j: nat, k: nat, l: nat, m: nat, n: nat, M: nat, N: nat)
    requires m == |o.brightnesses| * |o.blurs| && n == k * |o.blurs| + l
    requires M == |o.contrasts| * m && N == j * m + n
    ensures Position(o, i, j, k, l) == i * M + N
  {
    Radix(i, j, k, l, |o.contrasts|, |o.brightnesses|, |o.blurs|);
  }

  /** Option lists of the interactive decoder. */
  const GuiOptions := Options([true], [1.0, 2.0, 3.0, 4.0, 5.0, 7.0, 8.0, 9.0], [-50, 0, 50], [7, 3, 5, 0, 9, 11, 13, 15, 17, 21, 25])

  /** Option lists of the batch driver. */
  const BatchOptions := Options([true], [1.0, 2.0, 3.0, 4.0, 5.0], [-50, 0, 50], [7, 3, 5, 0, 9, 11, 13, 15, 17, 25])

  /** The interactive decoder runs 1 x 8 x 3 x 11 trials. */
  lemma GuiTrialCount()
    ensures |Trials(GuiOptions)| == 264
  {
  }

  /** The batch driver submits 1 x 5 x 3 x 10 trials per call. */
  lemma BatchTrialCount()
    ensures |Trials(BatchOptions)| == 150
  {
  }

  /** An empty option list leaves nothing to try. */
  lemma EmptyListNoTrials(o: Options)
    requires |o.grayscales| == 0 || |o.contrasts| == 0 || |o.brightnesses| == 0 || |o.blurs| == 0
    ensures Trials(o) == []
  {
  }
}
