/**
 * The display samples of the fitted reference curve: stations every 5 units
 * along the vehicle's x axis, from 0 up to (not including) 100, each paired
 * with the curve's value there. The curve evaluator, a power sum over
 * doubles in the C++, is a parameter: `curve(x)` stands for
 * `polyEval(refCoeffs, x)`.
 */
module ReferenceSamples {

  /** The first station not sampled any more. */
  const SAMPLE_END: int := 100

  /** The distance between two neighbouring stations. */
  const SAMPLE_STEP: int := 5

  /** How many stations the loop produces. */
  const SAMPLE_COUNT: nat := 20

  /**
   * The sampling loop: it pushes each station onto `xs` and the curve's
   * value at that station onto `ys`. The result is exactly twenty stations,
   * 0, 5, ..., 95, in strictly increasing order, with `ys` aligned to them.
   */
  method SampleReference(curve: real -> real) returns (xs: seq<real>, ys: seq<real>)
    ensures |xs| == SAMPLE_COUNT && |ys| == |xs|
    ensures forall i :: 0 <= i < |xs| ==> xs[i] == (SAMPLE_STEP * i) as real
    ensures forall i :: 0 <= i < |ys| ==> ys[i] == curve(xs[i])
    ensures forall i, j :: 0 <= i < j < |xs| ==> xs[i] < xs[j]
    ensures xs[0] == 0.0 && xs[|xs| - 1] == 95.0
  {
    xs, ys := [], [];
    var x := 0;
    while x < SAMPLE_END
      invariant 0 <= x <= SAMPLE_END && x % SAMPLE_STEP == 0
      invariant |xs| * SAMPLE_STEP == x && |ys| == |xs|
      invariant forall i :: 0 <= i < |xs| ==> xs[i] == (SAMPLE_STEP * i) as real
      invariant forall i :: 0 <= i < |ys| ==> ys[i] == curve(xs[i])
    {
      xs := xs + [x as real];
      ys := ys + [curve(x as real)];
      x := x + SAMPLE_STEP;
    }
  }
}
