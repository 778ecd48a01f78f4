/** The spirograph animation: every `Spiro` advances its pen angle by a
    fixed step on each timer tick until the curve has closed after `nRot`
    turns, and the `SpiroAnimator` restarts all curves with fresh
    parameters once every one of them is complete. Turtle drawing and the
    trigonometry of the curve are not modelled; random draws are inputs. */
module Spirograph {
  import opened Arith

  // ---- greatest common divisor ----------------------------------------------

  function Abs(x: int): nat {
    if x < 0 then -x else x
  }

  /** Euclid's algorithm on naturals. */
  function Gcd(a: nat, b: nat): nat
    decreases b
  {
    if b == 0 then a else Gcd(b, a % b)
  }

  /** Python's `math.gcd`, which works on absolute values. */
  function MathGcd(x: int, y: int): nat {
    Gcd(Abs(x), Abs(y))
  }

  /** `d` divides `x`. */
  predicate Divides(d: int, x: int)
    requires d > 0
  {
    x % d == 0
  }

  /** A multiple of `d` minus a multiple of a multiple of `d` is a multiple
      of `d`. */
  lemma DividesDiff(d: int, x: int, y: int, c: int)
    requires d > 0 && Divides(d, x) && Divides(d, y)
    ensures Divides(d, x - c * y)
  {
    var p, q := x / d, y / d;
    assert x == p * d && y == q * d;
    assert x - c * y == (p - c * q) * d;
    DivModUnique(x - c * y, d, p - c * q, 0);
  }

  /** The gcd of two naturals that are not both zero is positive and divides
      both. */
  lemma {:induction false} GcdDivides(a: nat, b: nat)
    requires a != 0 || b != 0
    ensures Gcd(a, b) > 0 && Divides(Gcd(a, b), a) && Divides(Gcd(a, b), b)
    decreases b
  {
    if b == 0 {
      DivModUnique(a, a, 1, 0);
      DivModUnique(0, a, 0, 0);
    } else {
      var q, r := a / b, a % b;
      assert a == r + q * b;
      GcdDivides(b, r);
      var g := Gcd(b, r);
      assert Gcd(a, b) == g;
      DividesDiff(g, r, b, -q);
      assert r - (-q) * b == a;
    }
  }

  /** Every common divisor of `a` and `b` divides their gcd. */
  lemma {:induction false} GcdGreatest(a: nat, b: nat, d: int)
    requires d > 0 && Divides(d, a) && Divides(d, b)
    ensures Divides(d, Gcd(a, b))
    decreases b
  {
    if b != 0 {
      assert a % b == a - (a / b) * b;
      DividesDiff(d, a, b, a / b);
      GcdGreatest(b, a % b, d);
    }
  }

  // ---- periodicity ------------------------------------------------------------

  /** `setparams`' periodicity `r // gcd(r, R)`; a positive divisor makes
      Dafny's division the floor division of Python. The gcd is zero only
      when both radii are, which `setparams` never sees since it divides by
      `R` as well. */
  function Periodicity(r: int, R: int): int {
    var g := MathGcd(r, R);
    if g == 0 then 0 else r / g
  }

  /** For a positive small radius the periodicity is at least 1, divides
      `r`, and is coprime to the reduced big radius `R // gcd`: `nRot / (R /
      gcd)` is `r / R` in lowest terms. */
  lemma PeriodicityFacts(r: int, R: int)
    requires r >= 1 && R != 0
    ensures var nRot, g := Periodicity(r, R), MathGcd(r, R);
      && nRot >= 1
      && Divides(nRot, r)
      && r == nRot * g
      && Gcd(nRot, Abs(R) / g) == 1
  {
    var g := MathGcd(r, R);
    GcdDivides(Abs(r), Abs(R));
    assert Periodicity(r, R) == r / g;
    var p := r / g;
    assert r == p * g;
    PositiveFactor(p, g);
    DivModUnique(r, p, g, 0);
    ReducedCoprime(r, Abs(R));
  }

  /** A factor of a positive product with a positive partner is positive. */
  lemma PositiveFactor(c: int, x: int)
    requires x > 0 && c * x > 0
    ensures c >= 1
  {
    if c <= 0 {
      MulMono(c, 0, x);
    }
  }

  /** A positive divisor of a positive number is at most that number. */
  lemma DivisorAtMost(x: int, y: int)
    requires x > 0 && y > 0 && Divides(x, y)
    ensures x <= y
  {
    var c := y / x;
    assert y == c * x;
    PositiveFactor(c, x);
    MulMono(1, c, x);
  }

  /** Dividing two naturals, the first positive, by their gcd leaves a
      coprime pair. */
  lemma ReducedCoprime(a: nat, b: nat)
    requires a >= 1
    ensures Gcd(a, b) > 0 && Gcd(Quot(a, Gcd(a, b)), Quot(b, Gcd(a, b))) == 1
  {
    var g := Gcd(a, b);
    GcdDivides(a, b);
    var p, q := a / g, b / g;
    assert a == p * g && b == q * g;
    PositiveFactor(p, g);
    var d := Gcd(p, q);
    GcdDivides(p, q);
    MulDivides(d, g, p);
    MulDivides(d, g, q);
    GcdGreatest(a, b, d * g);
    DivisorAtMost(d * g, g);
    FactorOfSelf(d, g);
  }

  /** The quotient of naturals by a positive divisor, a natural. */
  function Quot(x: nat, g: nat): nat
    requires g > 0
  {
    x / g
  }

  /** Scaling both sides of a divisibility by a positive factor keeps it. */
  lemma MulDivides(d: int, g: int, p: int)
    requires d > 0 && g > 0 && Divides(d, p)
    ensures d * g > 0 && Divides(d * g, p * g)
  {
    var p1 := p / d;
    assert p == p1 * d;
    assert p * g == p1 * (d * g);
    MulAtLeast(d, g);
    DivModUnique(p * g, d * g, p1, 0);
  }

  /** A positive multiple `d * g` no larger than `g` has `d == 1`. */
  lemma FactorOfSelf(d: int, g: int)
    requires d >= 1 && g > 0 && d * g <= g
    ensures d == 1
  {
    if d >= 2 {
      MulMono(2, d, g);
    }
  }

  // ---- one spiro's progress -------------------------------------------------

  /** The progress of a spiro: pen angle in degrees, periodicity, and the
      `drawingComplete` flag. */
  datatype Pen = Pen(a: int, nRot: int, complete: bool)

  /** `Spiro.update` on the progress: a complete spiro is left alone,
      otherwise the angle grows by `step` and the flag is set once the
      angle reaches `360 * nRot`. */
  function Advance(p: Pen, step: int): Pen {
    if p.complete then p
    else
      var a := p.a + step;
      Pen(a, p.nRot, a >= 360 * p.nRot)
  }

  /** The progress after `k` timer ticks. */
  function AdvanceN(p: Pen, step: int, k: nat): Pen {
    if k == 0 then p else Advance(AdvanceN(p, step, k - 1), step)
  }

  /** A freshly set-up spiro, stepping 5 degrees at a time, stays incomplete
      for `72 * nRot - 1` ticks with angle `5 * k`, and completes on tick
      `72 * nRot` with angle exactly `360 * nRot`, after which nothing
      changes; the angle never exceeds `360 * nRot`. */
  lemma {:induction false} CompletionTime(nRot: int, k: nat)
    requires nRot >= 1
    ensures AdvanceN(Pen(0, nRot, false), 5, k) ==
      if k < 72 * nRot then Pen(5 * k, nRot, false) else Pen(360 * nRot, nRot, true)
    ensures AdvanceN(Pen(0, nRot, false), 5, k).a <= 360 * nRot
  {
    if k > 0 {
      CompletionTime(nRot, k - 1);
    }
  }

  /** Python's `range(start, stop, step)` for a positive step. */
  function Range(start: int, stop: int, step: int): seq<int>
    requires step > 0
    decreases stop - start
  {
    if start >= stop then [] else [start] + Range(start + step, stop, step)
  }

  /** A range that overshoots its last element by at most one step has
      `m + 1` elements `start + k * step`. */
  lemma {:induction false} RangeShape(start: int, stop: int, step: int, m: nat)
    requires step > 0 && start + m * step < stop <= start + (m + 1) * step
    ensures |Range(start, stop, step)| == m + 1
    ensures forall k :: 0 <= k <= m ==> Range(start, stop, step)[k] == start + k * step
    decreases m
  {
    if m > 0 {
      assert (start + step) + (m - 1) * step == start + m * step;
      RangeShape(start + step, stop, step, m - 1);
      var rest := Range(start + step, stop, step);
      forall k | 1 <= k <= m
        ensures Range(start, stop, step)[k] == start + k * step
      {
        assert Range(start, stop, step)[k] == rest[k - 1];
        assert (start + step) + (k - 1) * step == start + k * step;
      }
    }
  }

  /** `draw` visits the angles 0, 5, ..., 360 * nRot: `72 * nRot + 1`
      points. */
  lemma DrawAngles(nRot: int)
    requires nRot >= 1
    ensures |Range(0, 360 * nRot + 1, 5)| == 72 * nRot + 1
    ensures forall k :: 0 <= k <= 72 * nRot ==> Range(0, 360 * nRot + 1, 5)[k] == 5 * k
    ensures Range(0, 360 * nRot + 1, 5)[72 * nRot] == 360 * nRot
  {
    RangeShape(0, 360 * nRot + 1, 5, 72 * nRot);
  }

  // ---- random parameters ------------------------------------------------------

  /** An RGB colour triple. */
  datatype Colour = Colour(red: real, green: real, blue: real)

  /** The argument tuple `(xc, yc, col, R, r, l)` of `Spiro`. */
  datatype Params = Params(xc: int, yc: int, col: Colour, R: int, r: int, l: real)

  /** The ranges `genRandomParams` draws from in a `width` by `height`
      window: `R` in [50, min(width, height) // 2], `r` in [10, 9R // 10],
      `l` in [0.1, 0.9], the centre inside the window and a colour in the
      unit cube. The draws themselves are inputs of the model. */
  ghost predicate IsRandomParams(width: int, height: int, p: Params) {
    && 50 <= p.R <= Min(width, height) / 2
    && 10 <= p.r <= 9 * p.R / 10
    && 0.1 <= p.l <= 0.9
    && -width / 2 <= p.xc <= width / 2
    && -height / 2 <= p.yc <= height / 2
    && 0.0 <= p.col.red <= 1.0 && 0.0 <= p.col.green <= 1.0 && 0.0 <= p.col.blue <= 1.0
  }

  function Min(x: int, y: int): int {
    if x < y then x else y
  }

  /** The range of `r` is never empty once `R >= 50`, and every `r` in it is
      below `R`, so the ratio `k = r / R` lies below 1. */
  lemma RadiusRange(R: int, r: int)
    requires R >= 50
    ensures 10 <= 9 * R / 10
    ensures 10 <= r <= 9 * R / 10 ==> 0 < r < R && 0.0 < r as real / R as real < 1.0
  {
    DivMono(100, 9 * R, 10);
    if 10 <= r <= 9 * R / 10 {
      MulBelowIffDiv(9 * R, 10, r);
      assert r * 10 <= 9 * R;
      FracBelowOne(r as real, R as real);
    }
  }

  /** Drawn parameters always make a valid spiro: `R` is not zero and the
      periodicity is at least 1. */
  lemma RandomParamsUsable(width: int, height: int, p: Params)
    requires IsRandomParams(width, height, p)
    ensures p.R != 0 && Periodicity(p.r, p.R) >= 1
    ensures 0.0 < p.r as real / p.R as real < 1.0
  {
    PeriodicityFacts(p.r, p.R);
    RadiusRange(p.R, p.r);
  }

  /** The shape of the curve a spiro set up from `p` draws: the parameters
      and the radius ratio `k = r / R`. */
  function ShapeOf(p: Params): (Params, real)
    requires p.R != 0
  {
    (p, p.r as real / p.R as real)
  }

  // ---- the Spiro object -------------------------------------------------------

  class Spiro {
    /** The angle step in degrees, 5 for every spiro. */
    const step: int
    var drawingComplete: bool
    var xc: int
    var yc: int
    var col: Colour
    var R: int
    var r: int
    var l: real
    var k: real
    var nRot: int
    var a: int

    /** The progress part of the state. */
    function Progress(): Pen
      reads this
    {
      Pen(a, nRot, drawingComplete)
    }

    /** The shape part of the state: the parameters and the radius ratio. */
    function Shape(): (Params, real)
      reads this
    {
      (Params(xc, yc, col, R, r, l), k)
    }

    /** `__init__`: step 5, incomplete, parameters set, drawing restarted.
      `r` must not be zero: the restart divides by the ratio `r / R`. */
    constructor(xc: int, yc: int, col: Colour, R: int, r: int, l: real)
      requires R != 0 && r != 0
      ensures step == 5
      ensures Progress() == Pen(0, Periodicity(r, R), false)
      ensures Shape() == ShapeOf(Params(xc, yc, col, R, r, l))
    {
      step := 5;
      drawingComplete := false;
      new;
      SetParams(xc, yc, col, R, r, l);
      Restart();
    }

    /** `setparams`: stores the parameters, computes the periodicity and the
      radius ratio and resets the angle. The flag is left as it was. */
    method SetParams(xc: int, yc: int, col: Colour, R: int, r: int, l: real)
      requires R != 0
      modifies this
      ensures Shape() == ShapeOf(Params(xc, yc, col, R, r, l))
      ensures nRot == Periodicity(r, R) && a == 0
      ensures drawingComplete == old(drawingComplete)
    {
      this.xc := xc;
      this.yc := yc;
      this.R := R;
      this.r := r;
      this.l := l;
      this.col := col;
      GcdDivides(Abs(r), Abs(R));
      var gcdVal := MathGcd(r, R);
      nRot := r / gcdVal;
      this.k := r as real / R as real;
      a := 0;
    }

    /** `restart`: clears the flag; the pen is moved to the start of the
      curve by drawing calls that are not modelled. Computing that start
      divides by `k`, so `k` must not be zero. */
    method Restart()
      requires k != 0.0
      modifies this
      ensures Progress() == old(Progress()).(complete := false)
      ensures Shape() == old(Shape())
    {
      drawingComplete := false;
    }

    /** `update`: one timer tick of the progress. An incomplete tick moves
      the pen by a formula that divides by `k`, so `k` must not be zero. */
    method Update()
      requires drawingComplete || k != 0.0
      modifies this
      ensures Progress() == Advance(old(Progress()), step)
      ensures Shape() == old(Shape())
    {
      if drawingComplete {
        return;
      }
      a := a + step;
      if a >= 360 * nRot {
        drawingComplete := true;
      }
    }

    /** `draw`: the angles, in degrees, at which the whole curve is plotted. */
    method Draw() returns (angles: seq<int>)
      requires step > 0
      ensures angles == Range(0, 360 * nRot + 1, step)
    {
      angles := [];
      var i := 0;
      while i < 360 * nRot + 1
        invariant i >= 0
        invariant angles + Range(i, 360 * nRot + 1, step) == Range(0, 360 * nRot + 1, step)
        decreases 360 * nRot + 1 - i
      {
        assert Range(i, 360 * nRot + 1, step) == [i] + Range(i + step, 360 * nRot + 1, step);
        angles := angles + [i];
        i := i + step;
      }
    }
  }

  // ---- the animator -------------------------------------------------------------

  /** The number of complete spiros. */
  function CountComplete(pens: seq<Pen>): (n: nat)
    ensures n <= |pens|
  {
    if |pens| == 0 then 0
    else CountComplete(pens[..|pens| - 1]) + (if pens[|pens| - 1].complete then 1 else 0)
  }

  /** The count reaches the number of spiros exactly when all are complete. */
  lemma {:induction false} CountCompleteAll(pens: seq<Pen>)
    ensures CountComplete(pens) == |pens| <==> forall i :: 0 <= i < |pens| ==> pens[i].complete
  {
    if |pens| > 0 {
      var init := pens[..|pens| - 1];
      CountCompleteAll(init);
      assert forall i :: 0 <= i < |init| ==> init[i] == pens[i];
    }
  }

  /** Every spiro's progress after one tick. */
  function AdvanceAll(pens: seq<Pen>): (r: seq<Pen>)
    ensures |r| == |pens| && forall i :: 0 <= i < |pens| ==> r[i] == Advance(pens[i], 5)
  {
    seq(|pens|, i requires 0 <= i < |pens| => Advance(pens[i], 5))
  }

  /** The progress of a spiro just set up from `p`. */
  function FreshPen(p: Params): Pen {
    Pen(0, Periodicity(p.r, p.R), false)
  }

  class SpiroAnimator {
    /** The timer interval in milliseconds. */
    const deltaT: int
    const width: int
    const height: int
    var restarting: bool
    var spiros: seq<Spiro>

    /** The spiros are distinct objects, each stepping 5 degrees. */
    ghost predicate Valid()
      reads this
    {
      && (forall i, j :: 0 <= i < |spiros| && 0 <= j < |spiros| && i != j ==> spiros[i] != spiros[j])
      && (forall i :: 0 <= i < |spiros| ==> spiros[i].step == 5)
    }

    /** Every spiro has a non-zero radius ratio `k`, so each can tick. */
    ghost predicate NonZeroRatios()
      reads this, spiros
    {
      forall i :: 0 <= i < |spiros| ==> spiros[i].k != 0.0
    }

    /** The progress of every spiro, in order. */
    ghost function Pens(): (ps: seq<Pen>)
      reads this, spiros
      ensures |ps| == |spiros| && forall i :: 0 <= i < |spiros| ==> ps[i] == spiros[i].Progress()
    {
      seq(|spiros|, i reads this, spiros requires 0 <= i < |spiros| => spiros[i].Progress())
    }

    /** The shape of every spiro, in order. */
    ghost function Shapes(): (ss: seq<(Params, real)>)
      reads this, spiros
      ensures |ss| == |spiros| && forall i :: 0 <= i < |spiros| ==> ss[i] == spiros[i].Shape()
    {
      seq(|spiros|, i reads this, spiros requires 0 <= i < |spiros| => spiros[i].Shape())
    }

    /** `__init__` with the window size and one drawn parameter tuple per
      spiro. */
    constructor(width: int, height: int, params: seq<Params>)
      requires forall i {:trigger params[i]} :: 0 <= i < |params| ==> IsRandomParams(width, height, params[i])
      ensures Valid() && !restarting && this.width == width && this.height == height
      ensures |spiros| == |params|
      ensures forall i :: 0 <= i < |params| ==> Pens()[i] == FreshPen(params[i])
      ensures forall i :: 0 <= i < |params| ==> params[i].R != 0 && Shapes()[i] == ShapeOf(params[i])
      ensures NonZeroRatios()
    {
      deltaT := 10;
      this.width := width;
      this.height := height;
      restarting := false;
      spiros := [];
      new;
      var i := 0;
      while i < |params|
        invariant 0 <= i <= |params| && |spiros| == i && !restarting
        invariant Valid()
        invariant forall t :: 0 <= t < i ==> spiros[t].Progress() == FreshPen(params[t])
        invariant forall t :: 0 <= t < i ==> params[t].R != 0 && spiros[t].Shape() == ShapeOf(params[t])
        invariant forall t :: 0 <= t < i ==> spiros[t].k != 0.0
      {
        var p := params[i];
        RandomParamsUsable(width, height, p);
        var spiro := new Spiro(p.xc, p.yc, p.col, p.R, p.r, p.l);
        spiros := spiros + [spiro];
        i := i + 1;
      }
    }

    /** `restart`: unless a restart is already under way, every spiro gets
      the next drawn parameters and restarts, and the flag is cleared
      again. Clearing the drawings is not modelled. */
    method Restart(params: seq<Params>)
      requires Valid() && |params| == |spiros|
      requires forall i {:trigger params[i]} :: 0 <= i < |params| ==> IsRandomParams(width, height, params[i])
      modifies this, spiros
      ensures Valid() && spiros == old(spiros)
      ensures old(restarting) ==> restarting && Pens() == old(Pens()) && Shapes() == old(Shapes())
      ensures !old(restarting) ==> !restarting && forall i :: 0 <= i < |spiros| ==> Pens()[i] == FreshPen(params[i])
      ensures !old(restarting) ==> forall i :: 0 <= i < |spiros| ==> params[i].R != 0 && Shapes()[i] == ShapeOf(params[i])
      ensures !old(restarting) ==> NonZeroRatios()
    {
      if restarting {
        return;
      } else {
        restarting := true;
      }
      var i := 0;
      while i < |spiros|
        invariant 0 <= i <= |spiros| && spiros == old(spiros) && restarting
        invariant Valid()
        invariant forall t :: 0 <= t < i ==> spiros[t].Progress() == FreshPen(params[t])
        invariant forall t :: 0 <= t < i ==> params[t].R != 0 && spiros[t].Shape() == ShapeOf(params[t])
        invariant forall t :: 0 <= t < i ==> spiros[t].k != 0.0
      {
        var p := params[i];
        RandomParamsUsable(width, height, p);
        spiros[i].SetParams(p.xc, p.yc, p.col, p.R, p.r, p.l);
        spiros[i].Restart();
        i := i + 1;
      }
      restarting := false;
    }

    /** `restart` as written: the first `spiro.clear()` raises, because
      `Spiro` has no `clear`. The flag is then left set, so every later
      restart returns at once, and no spiro is given new parameters. The
      result says whether the call raised. */
    method RestartAsWritten() returns (raised: bool)
      modifies this
      ensures spiros == old(spiros) && Pens() == old(Pens()) && Shapes() == old(Shapes())
      ensures raised <==> !old(restarting) && |spiros| > 0
      ensures restarting <==> old(restarting) || |spiros| > 0
    {
      if restarting {
        return false;
      } else {
        restarting := true;
      }
      if |spiros| > 0 {
        return true;
      }
      restarting := false;
      return false;
    }

    /** `update`: every spiro advances one tick, the complete ones are
      counted, and all are restarted with `params` when the count reaches
      the number of spiros. Rescheduling the timer is not modelled. */
    method Update(params: seq<Params>) returns (nComplete: nat)
      requires Valid() && NonZeroRatios() && |params| == |spiros| && !restarting
      requires forall i {:trigger params[i]} :: 0 <= i < |params| ==> IsRandomParams(width, height, params[i])
      modifies this, spiros
      ensures Valid() && NonZeroRatios() && spiros == old(spiros) && !restarting
      ensures nComplete == CountComplete(AdvanceAll(old(Pens())))
      ensures nComplete == |spiros| ==> forall i :: 0 <= i < |spiros| ==> Pens()[i] == FreshPen(params[i])
      ensures nComplete == |spiros| ==> forall i :: 0 <= i < |spiros| ==> params[i].R != 0 && Shapes()[i] == ShapeOf(params[i])
      ensures nComplete != |spiros| ==> Pens() == AdvanceAll(old(Pens())) && Shapes() == old(Shapes())
    {
      nComplete := TickAll();
      if nComplete == |spiros| {
        Restart(params);
      }
    }

    /** The loop of `update`: one tick of every spiro, in order, counting
      the complete ones. */
    method TickAll() returns (nComplete: nat)
      requires Valid() && NonZeroRatios()
      modifies spiros
      ensures Valid() && NonZeroRatios()
      ensures Pens() == AdvanceAll(old(Pens())) && Shapes() == old(Shapes())
      ensures nComplete == CountComplete(Pens())
    {
      ghost var next := AdvanceAll(Pens());
      ghost var pens, shapes := Pens(), Shapes();
      nComplete := 0;
      var i := 0;
      while i < |spiros|
        invariant 0 <= i <= |spiros|
        invariant forall t :: 0 <= t < |spiros| ==>
          spiros[t].Shape() == shapes[t] && spiros[t].Progress() == if t < i then next[t] else pens[t]
        invariant nComplete == CountComplete(next[..i])
      {
        spiros[i].Update();
        assert next[..i + 1][..i] == next[..i];
        if spiros[i].drawingComplete {
          nComplete := nComplete + 1;
        }
        i := i + 1;
      }
      assert next[..i] == next;
    }
  }

  /** Every spiro of an animator restarts exactly when all of them report
      complete after their own tick. */
  lemma RestartWhenAllComplete(next: seq<Pen>, nComplete: nat)
    requires nComplete == CountComplete(next)
    ensures nComplete == |next| <==> forall i :: 0 <= i < |next| ==> next[i].complete
  {
    CountCompleteAll(next);
  }
}
