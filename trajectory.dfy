/** The two plottable point lists of the steer message: the optimizer's
    predicted trajectory, dealt out of its flat result vector by index parity,
    and the reference line sampled from the fitted polynomial. */
module Trajectory {

  /** The elements of `s` at even positions, in order. */
  function Evens<T>(s: seq<T>): (r: seq<T>)
    ensures |r| == (|s| + 1) / 2
    ensures forall k :: 0 <= k < |r| ==> r[k] == s[2 * k]
    decreases |s|
  {
    if s == [] then [] else [s[0]] + Odds(s[1..])
  }

  /** The elements of `s` at odd positions, in order. */
  function Odds<T>(s: seq<T>): (r: seq<T>)
    ensures |r| == |s| / 2
    ensures forall k :: 0 <= k < |r| ==> r[k] == s[2 * k + 1]
    decreases |s|
  {
    if s == [] then [] else Evens(s[1..])
  }

  /** Alternates the elements of `xs` and `ys`, starting with `xs`. */
  function Interleave<T>(xs: seq<T>, ys: seq<T>): (r: seq<T>)
    ensures |r| == |xs| + |ys|
    decreases |xs| + |ys|
  {
    if xs == [] then ys else [xs[0]] + Interleave(ys, xs[1..])
  }

  /** Dealing a sequence out by parity and interleaving the two hands restores it. */
  lemma {:induction false} InterleaveEvensOdds<T>(s: seq<T>)
    ensures Interleave(Evens(s), Odds(s)) == s
    decreases |s|
  {
    if s != [] {
      InterleaveEvensOdds(s[1..]);
      calc {
        Interleave(Evens(s), Odds(s));
        [s[0]] + Interleave(Odds(s), Evens(s)[1..]);
        { assert Odds(s) == Evens(s[1..]) && Evens(s)[1..] == Odds(s[1..]); }
        [s[0]] + Interleave(Evens(s[1..]), Odds(s[1..]));
        [s[0]] + s[1..];
      }
    }
  }

  /** The x coordinates of the predicted trajectory: the result entries at even
      positions from position 2 on (entries 0 and 1 are the actuator values). */
  function TrajectoryX<T>(vars: seq<T>): seq<T>
  {
    if |vars| < 2 then [] else Evens(vars[2..])
  }

  /** The y coordinates of the predicted trajectory: the result entries at odd
      positions from position 3 on. */
  function TrajectoryY<T>(vars: seq<T>): seq<T>
  {
    if |vars| < 2 then [] else Odds(vars[2..])
  }

  /** The loop that deals the optimizer's result out into `mpc_x_vals` and
      `mpc_y_vals`: from position 2 on, even positions go to x, odd ones to y.
      An odd-length result is not rejected: x then gets one entry more. */
  method SplitTrajectory<T>(vars: seq<T>) returns (mpcX: seq<T>, mpcY: seq<T>)
    ensures mpcX == TrajectoryX(vars) && mpcY == TrajectoryY(vars)
  {
    mpcX, mpcY := [], [];
    var i := 2;
    while i < |vars|
      invariant 2 <= i <= if |vars| < 2 then 2 else |vars|
      invariant |mpcX| == (i - 1) / 2 && |mpcY| == (i - 2) / 2
      invariant forall k :: 0 <= k < |mpcX| ==> mpcX[k] == vars[2 + 2 * k]
      invariant forall k :: 0 <= k < |mpcY| ==> mpcY[k] == vars[3 + 2 * k]
    {
      if i % 2 == 0 {
        mpcX := mpcX + [vars[i]];
      } else {
        mpcY := mpcY + [vars[i]];
      }
      i := i + 1;
    }
  }

  /** Sizes of the two coordinate lists for a result of n entries: both empty
      when n <= 2, otherwise (n - 1) / 2 x values and (n - 2) / 2 y values;
      they are equally long exactly when n is even, and x is one longer when
      n is odd. */
  lemma TrajectoryLengths<T>(vars: seq<T>)
    ensures |vars| <= 2 ==> TrajectoryX(vars) == [] && TrajectoryY(vars) == []
    ensures |vars| > 2 ==> |TrajectoryX(vars)| == (|vars| - 1) / 2 && |TrajectoryY(vars)| == (|vars| - 2) / 2
    ensures |vars| >= 2 ==> (|TrajectoryX(vars)| == |TrajectoryY(vars)| <==> |vars| % 2 == 0)
    ensures |vars| >= 2 && |vars| % 2 == 1 ==> |TrajectoryX(vars)| == |TrajectoryY(vars)| + 1
  {
  }

  /** The k-th predicted point is (vars[2 + 2k], vars[3 + 2k]). */
  lemma TrajectoryPoint<T>(vars: seq<T>, k: nat)
    requires 3 + 2 * k < |vars|
    ensures k < |TrajectoryX(vars)| && k < |TrajectoryY(vars)|
    ensures TrajectoryX(vars)[k] == vars[2 + 2 * k] && TrajectoryY(vars)[k] == vars[3 + 2 * k]
  {
  }

  /** Interleaving the x and y lists gives back every entry from position 2
      on, in order: nothing is dropped or reordered. */
  lemma TrajectoryRecombines<T>(vars: seq<T>)
    requires |vars| >= 2
    ensures Interleave(TrajectoryX(vars), TrajectoryY(vars)) == vars[2..]
  {
    InterleaveEvensOdds(vars[2..]);
  }

  /** The actuator entries (steering, throttle) never reach the trajectory. */
  lemma TrajectoryIgnoresActuators<T>(vars: seq<T>, steer: T, throttle: T)
    requires |vars| >= 2
    ensures TrajectoryX([steer, throttle] + vars[2..]) == TrajectoryX(vars)
    ensures TrajectoryY([steer, throttle] + vars[2..]) == TrajectoryY(vars)
  {
  }

  /** Spacing and count of the reference-line samples. */
  const POLY_INC: real := 2.5
  const NUM_POINTS: nat := 25

  /** The forward distances at which the reference line is sampled. */
  function ReferenceXs(): (xs: seq<real>)
    ensures |xs| == NUM_POINTS
  {
    seq(NUM_POINTS, i => POLY_INC * i as real)
  }

  /** The samples start at the vehicle, end 60 units ahead and are strictly
      increasing with a fixed step. */
  lemma ReferenceXsSpan()
    ensures ReferenceXs()[0] == 0.0 && ReferenceXs()[NUM_POINTS - 1] == 60.0
    ensures forall i :: 0 <= i < NUM_POINTS - 1 ==> ReferenceXs()[i + 1] == ReferenceXs()[i] + POLY_INC
    ensures forall i, j :: 0 <= i < j < NUM_POINTS ==> ReferenceXs()[i] < ReferenceXs()[j]
  {
  }

  /** The loop that fills `next_x_vals` and `next_y_vals`: 25 samples at
      x = 2.5 * i, each y being the fitted polynomial evaluated there.
      `polyeval` is the source's floating-point evaluation, left uninterpreted. */
  method SampleReferenceLine(coeffs: seq<real>, polyeval: (seq<real>, real) -> real)
    returns (nextX: seq<real>, nextY: seq<real>)
    ensures nextX == ReferenceXs()
    ensures |nextY| == NUM_POINTS
    ensures forall i :: 0 <= i < NUM_POINTS ==> nextY[i] == polyeval(coeffs, nextX[i])
  {
    nextX, nextY := [], [];
    var i := 0;
    while i < NUM_POINTS
      invariant 0 <= i <= NUM_POINTS
      invariant nextX == ReferenceXs()[..i]
      invariant |nextY| == i
      invariant forall k :: 0 <= k < i ==> nextY[k] == polyeval(coeffs, nextX[k])
    {
      nextX := nextX + [POLY_INC * i as real];
      nextY := nextY + [polyeval(coeffs, POLY_INC * i as real)];
      i := i + 1;
    }
  }
}
