/** Craig Reynolds's boids as the flocking script runs them: a population of
    agents held as two parallel arrays of 2D vectors (positions and
    velocities), advanced once per animation frame by three neighbour rules,
    a velocity clamp and a margin wrap at the screen edges. */
module Flocking {

  // Screen and rule configuration of the script.
  const Width: real := 640.0
  const Height: real := 480.0
  const MinDist: real := 25.0
  const MaxRuleVel: real := 0.03
  const MaxVel: real := 2.0
  /** The wrap margin `deltaR` of `applyBC`. */
  const Margin: real := 2.0
  /** The fixed radius of the alignment and cohesion mask. */
  const FlockRadius: real := 50.0
  /** Strength of the scatter impulse of a right click. */
  const ScatterStrength: real := 0.1

  datatype Vec = Vec(x: real, y: real)

  const Zero: Vec := Vec(0.0, 0.0)

  function Add(a: Vec, b: Vec): Vec { Vec(a.x + b.x, a.y + b.y) }

  function Sub(a: Vec, b: Vec): Vec { Vec(a.x - b.x, a.y - b.y) }

  /** The vector `c * v`. */
  function Scale(v: Vec, c: real): Vec { Vec(c * v.x, c * v.y) }

  function SqNorm(v: Vec): real { v.x * v.x + v.y * v.y }

  /** `norm` behaves as the Euclidean norm (`numpy.linalg.norm`), which the
      model does not compute: it is non-negative and its square is the sum
      of the squared coordinates. */
  ghost predicate IsNorm(norm: Vec -> real) {
    forall v :: norm(v) >= 0.0 && norm(v) * norm(v) == SqNorm(v)
  }

  /** A product, named so that the solver treats it as one term. */
  function Mul(a: real, b: real): real { a * b }

  lemma SquareLess(a: real, b: real)
    requires 0.0 <= a < b
    ensures a * a < b * b
  {
    assert Mul(a, a) <= Mul(a, b);
    assert Mul(a, b) < Mul(b, b);
  }

  /** Two non-negative reals with equal squares are equal. */
  lemma SquareRootUnique(a: real, b: real)
    requires a >= 0.0 && b >= 0.0 && a * a == b * b
    ensures a == b
  {
    if a < b {
      SquareLess(a, b);
    } else if b < a {
      SquareLess(b, a);
    }
  }

  /** For non-negative reals, `<` is decided by the squares. */
  lemma SquareMonotone(a: real, b: real)
    requires a >= 0.0 && b >= 0.0
    ensures a < b <==> a * a < b * b
  {
    if a < b {
      SquareLess(a, b);
    } else if b < a {
      SquareLess(b, a);
    }
  }

  lemma DivBelowOne(a: real, b: real)
    requires 0.0 < a < b
    ensures 0.0 < a / b < 1.0
  {
    var c := a / b;
    assert c * b == a;
    if c >= 1.0 {
      assert false;
    }
  }

  lemma ScaleSqNorm(v: Vec, c: real)
    ensures SqNorm(Scale(v, c)) == (c * c) * SqNorm(v)
  {
  }

  lemma NormOfZero(norm: Vec -> real)
    requires IsNorm(norm)
    ensures norm(Zero) == 0.0
  {
    SquareRootUnique(norm(Zero), 0.0);
  }

  /** Scaling by `maxVal / m`, where `m` is the norm of `v` and exceeds
      `maxVal`, gives a vector of norm exactly `maxVal`. */
  lemma ScaledDownLength(v: Vec, m: real, maxVal: real, norm: Vec -> real)
    requires IsNorm(norm) && m == norm(v) && m > maxVal > 0.0
    ensures Vec(v.x * maxVal / m, v.y * maxVal / m) == Scale(v, maxVal / m)
    ensures 0.0 < maxVal / m < 1.0
    ensures norm(Scale(v, maxVal / m)) == maxVal
  {
    var c := maxVal / m;
    var r := Scale(v, c);
    assert c * m == maxVal;
    DivBelowOne(maxVal, m);
    ScaleSqNorm(v, c);
    assert SqNorm(v) == m * m;
    assert (c * c) * (m * m) == (c * m) * (c * m);
    assert SqNorm(r) == maxVal * maxVal;
    SquareRootUnique(norm(r), maxVal);
  }

  /** `limitVec`: clamps the magnitude of one vector to `maxVal`. */
  function LimitVec(v: Vec, maxVal: real, norm: Vec -> real): (r: Vec)
    requires IsNorm(norm) && maxVal > 0.0
    ensures norm(r) <= maxVal
    ensures norm(v) <= maxVal ==> r == v
    ensures norm(v) > maxVal ==>
      norm(r) == maxVal && 0.0 < maxVal / norm(v) < 1.0 && r == Scale(v, maxVal / norm(v))
  {
    var m := norm(v);
    if m > maxVal then
      ScaledDownLength(v, m, maxVal, norm);
      Vec(v.x * maxVal / m, v.y * maxVal / m)
    else
      v
  }

  /** Above the bound, `limitVec` multiplies each coordinate by `maxVal`
      and divides it by the norm. */
  lemma LimitVecScaled(v: Vec, maxVal: real, norm: Vec -> real)
    requires IsNorm(norm) && maxVal > 0.0 && norm(v) > maxVal
    ensures LimitVec(v, maxVal, norm) == Vec(v.x * maxVal / norm(v), v.y * maxVal / norm(v))
  {
  }

  /** The zero vector passes `limitVec` unchanged: nothing divides by zero. */
  lemma LimitVecZero(maxVal: real, norm: Vec -> real)
    requires IsNorm(norm) && maxVal > 0.0
    ensures LimitVec(Zero, maxVal, norm) == Zero
  {
    NormOfZero(norm);
  }

  /** `limit` applied to a whole array of rows, as a value. */
  function LimitAll(s: seq<Vec>, maxVal: real, norm: Vec -> real): (r: seq<Vec>)
    requires IsNorm(norm) && maxVal > 0.0
    ensures |r| == |s|
    ensures forall i :: 0 <= i < |s| ==> norm(r[i]) <= maxVal
    ensures forall i :: 0 <= i < |s| && norm(s[i]) <= maxVal ==> r[i] == s[i]
    ensures forall i :: 0 <= i < |s| ==> r[i] == LimitVec(s[i], maxVal, norm)
  {
    seq(|s|, i requires 0 <= i < |s| => LimitVec(s[i], maxVal, norm))
  }

  /** Row-wise sum of two arrays of equal length (numpy `+`). */
  function AddAll(a: seq<Vec>, b: seq<Vec>): (r: seq<Vec>)
    requires |a| == |b|
    ensures |r| == |a|
  {
    seq(|a|, i requires 0 <= i < |a| => Add(a[i], b[i]))
  }

  /** The margin wrap of one coordinate in `applyBC`: the two tests run one
      after the other, exactly as in the script. */
  function Wrap(c: real, extent: real): (r: real)
    requires extent >= 0.0
    ensures -Margin <= r <= extent + Margin
  {
    var c1 := if c > extent + Margin then -Margin else c;
    if c1 < -Margin then extent + Margin else c1
  }

  /** An x above the right margin goes to the left margin and back; a
      coordinate inside the band is untouched. */
  lemma WrapCases(c: real, extent: real)
    requires extent >= 0.0
    ensures c > extent + Margin ==> Wrap(c, extent) == -Margin
    ensures c < -Margin ==> Wrap(c, extent) == extent + Margin
    ensures -Margin <= c <= extent + Margin ==> Wrap(c, extent) == c
  {
  }

  /** Wrapping twice is wrapping once. */
  lemma WrapIdempotent(c: real, extent: real)
    requires extent >= 0.0
    ensures Wrap(Wrap(c, extent), extent) == Wrap(c, extent)
  {
  }

  ghost predicate InArena(p: Vec) {
    -Margin <= p.x <= Width + Margin && -Margin <= p.y <= Height + Margin
  }

  function WrapPoint(p: Vec): (r: Vec)
    ensures InArena(r)
  {
    Vec(Wrap(p.x, Width), Wrap(p.y, Height))
  }

  function WrapAll(s: seq<Vec>): (r: seq<Vec>)
    ensures |r| == |s|
    ensures forall i :: 0 <= i < |s| ==> InArena(r[i])
    ensures forall i :: 0 <= i < |s| && InArena(s[i]) ==> r[i] == s[i]
  {
    seq(|s|, i requires 0 <= i < |s| => WrapPoint(s[i]))
  }

  /** At width 640 and margin 2, x = 645 wraps to -2 and x = -3 wraps
      to 642. */
  lemma WrapExamples()
    ensures Wrap(645.0, Width) == -2.0 && Wrap(-3.0, Width) == 642.0
  {
    WrapCases(645.0, Width);
    WrapCases(-3.0, Width);
  }

  // ---- neighbour masks -------------------------------------------------

  function SqDist(p: Vec, q: Vec): real { SqNorm(Sub(p, q)) }

  /** One entry of `distMatrix < radius`, written on squared distances. */
  predicate Within(p: Vec, q: Vec, radius: real) {
    SqDist(p, q) < radius * radius
  }

  /** The squared-distance mask is the mask the script builds from pairwise
      Euclidean distances, strict comparison included. */
  lemma WithinIsDistanceBelow(p: Vec, q: Vec, radius: real, norm: Vec -> real)
    requires IsNorm(norm) && radius >= 0.0
    ensures Within(p, q, radius) <==> norm(Sub(p, q)) < radius
  {
    SquareMonotone(norm(Sub(p, q)), radius);
  }

  /** The number of agents in the mask row of `p` (`D.sum(axis=1)`). */
  function MaskCount(pos: seq<Vec>, p: Vec, radius: real): nat
  {
    if |pos| == 0 then 0
    else MaskCount(pos[..|pos| - 1], p, radius) + (if Within(p, pos[|pos| - 1], radius) then 1 else 0)
  }

  /** One row of `D.dot(vals)`: the sum of `vals[j]` over the agents `j`
      whose position lies within `radius` of `p`. */
  function MaskedSum(pos: seq<Vec>, vals: seq<Vec>, p: Vec, radius: real): Vec
    requires |pos| == |vals|
  {
    if |pos| == 0 then Zero
    else
      var k := |pos| - 1;
      var rest := MaskedSum(pos[..k], vals[..k], p, radius);
      if Within(p, pos[k], radius) then Add(rest, vals[k]) else rest
  }

  /** Reference definition of separation: the sum of the offsets
      `p - pos[j]` from every agent closer than `radius`. */
  function OffsetSum(pos: seq<Vec>, p: Vec, radius: real): Vec
  {
    if |pos| == 0 then Zero
    else
      var k := |pos| - 1;
      var rest := OffsetSum(pos[..k], p, radius);
      if Within(p, pos[k], radius) then Add(rest, Sub(p, pos[k])) else rest
  }

  // ---- the three rules ---------------------------------------------------

  /** Rule 1 before clamping: `pos*D.sum(axis=1) - D.dot(pos)`, row `i`. */
  function RawSeparation(pos: seq<Vec>, i: nat): Vec
    requires i < |pos|
  {
    Sub(Scale(pos[i], MaskCount(pos, pos[i], MinDist) as real), MaskedSum(pos, pos, pos[i], MinDist))
  }

  /** Rule 2 before clamping: `D.dot(vel)` with the 50-unit mask, row `i`. */
  function RawAlignment(pos: seq<Vec>, vel: seq<Vec>, i: nat): Vec
    requires |pos| == |vel| && i < |pos|
  {
    MaskedSum(pos, vel, pos[i], FlockRadius)
  }

  /** Rule 3 before clamping: `D.dot(pos) - pos` with the 50-unit mask, row `i`. */
  function RawCohesion(pos: seq<Vec>, i: nat): Vec
    requires i < |pos|
  {
    Sub(MaskedSum(pos, pos, pos[i], FlockRadius), pos[i])
  }

  function Separation(pos: seq<Vec>, i: nat, norm: Vec -> real): (r: Vec)
    requires i < |pos| && IsNorm(norm)
    ensures norm(r) <= MaxRuleVel
  {
    LimitVec(RawSeparation(pos, i), MaxRuleVel, norm)
  }

  function Alignment(pos: seq<Vec>, vel: seq<Vec>, i: nat, norm: Vec -> real): (r: Vec)
    requires |pos| == |vel| && i < |pos| && IsNorm(norm)
    ensures norm(r) <= MaxRuleVel
  {
    LimitVec(RawAlignment(pos, vel, i), MaxRuleVel, norm)
  }

  function Cohesion(pos: seq<Vec>, i: nat, norm: Vec -> real): (r: Vec)
    requires i < |pos| && IsNorm(norm)
    ensures norm(r) <= MaxRuleVel
  {
    LimitVec(RawCohesion(pos, i), MaxRuleVel, norm)
  }

  /** `applyRules`: the three separately clamped rule outputs, summed and
      not clamped again; computed from the positions and velocities at the
      start of the frame only. */
  function ApplyRules(pos: seq<Vec>, vel: seq<Vec>, norm: Vec -> real): (r: seq<Vec>)
    requires |pos| == |vel| && IsNorm(norm)
    ensures |r| == |pos|
  {
    seq(|pos|, i requires 0 <= i < |pos| =>
      Add(Add(Separation(pos, i, norm), Alignment(pos, vel, i, norm)), Cohesion(pos, i, norm)))
  }

  // ---- properties of the rules -------------------------------------------

  /** The separation expression of the script equals the sum of the offsets
      from the agents closer than the radius. */
  lemma {:induction false} SeparationIsOffsetSum(pos: seq<Vec>, p: Vec, radius: real)
    ensures Sub(Scale(p, MaskCount(pos, p, radius) as real), MaskedSum(pos, pos, p, radius))
         == OffsetSum(pos, p, radius)
  {
    if |pos| > 0 {
      var k := |pos| - 1;
      SeparationIsOffsetSum(pos[..k], p, radius);
      var c := MaskCount(pos[..k], p, radius) as real;
      if Within(p, pos[k], radius) {
        assert MaskCount(pos, p, radius) as real == c + 1.0;
        ScaleSucc(p, c);
      }
    }
  }

  lemma ScaleSucc(p: Vec, c: real)
    ensures Scale(p, c + 1.0) == Add(Scale(p, c), p)
  {
    assert (c + 1.0) * p.x == c * p.x + p.x;
    assert (c + 1.0) * p.y == c * p.y + p.y;
  }

  lemma {:induction false} OffsetSumAppend(a: seq<Vec>, b: seq<Vec>, p: Vec, radius: real)
    ensures OffsetSum(a + b, p, radius) == Add(OffsetSum(a, p, radius), OffsetSum(b, p, radius))
  {
    if |b| == 0 {
      assert a + b == a;
    } else {
      var k := |b| - 1;
      assert (a + b)[..|a + b| - 1] == a + b[..k];
      OffsetSumAppend(a, b[..k], p, radius);
    }
  }

  /** The self term of separation cancels: dropping agent `i` from the
      population leaves its separation sum as it is. */
  lemma SeparationSelfCancels(pos: seq<Vec>, i: nat)
    requires i < |pos|
    ensures RawSeparation(pos, i) == OffsetSum(pos[..i] + pos[i + 1..], pos[i], MinDist)
  {
    SeparationIsOffsetSum(pos, pos[i], MinDist);
    assert pos == pos[..i] + [pos[i]] + pos[i + 1..];
    OffsetSumAppend(pos[..i] + [pos[i]], pos[i + 1..], pos[i], MinDist);
    OffsetSumAppend(pos[..i], [pos[i]], pos[i], MinDist);
    assert [pos[i]][..0] == [];
    OffsetSumAppend(pos[..i], pos[i + 1..], pos[i], MinDist);
  }

  /** Two agents exactly `minDist` apart do not push each other; closer than
      that, the first is pushed directly away from the second. */
  lemma SeparationThreshold(p: Vec, q: Vec)
    ensures SqDist(p, q) == MinDist * MinDist ==> RawSeparation([p, q], 0) == Zero
    ensures SqDist(p, q) < MinDist * MinDist ==> RawSeparation([p, q], 0) == Sub(p, q)
  {
    SeparationIsOffsetSum([p, q], p, MinDist);
    assert [p, q][..1] == [p];
    assert [p][..0] == [];
    assert Within(p, p, MinDist);
    assert OffsetSum([p], p, MinDist) == Zero;
  }

  /** With the 50-unit mask strict as well, an agent exactly 50 away is not a
      flockmate. */
  lemma FlockMaskStrict(p: Vec, q: Vec)
    requires SqDist(p, q) == FlockRadius * FlockRadius
    ensures !Within(p, q, FlockRadius) && !Within(p, q, MinDist)
  {
  }

  /** If agent `i` is the only one within `radius` of `p` and is itself
      within it, the mask row picks exactly agent `i`. */
  lemma {:induction false} MaskedSumOnlySelf(pos: seq<Vec>, vals: seq<Vec>, p: Vec, radius: real, i: nat)
    requires |pos| == |vals| && i < |pos| && Within(p, pos[i], radius)
    requires forall j :: 0 <= j < |pos| && j != i ==> !Within(p, pos[j], radius)
    ensures MaskedSum(pos, vals, p, radius) == vals[i]
    ensures MaskCount(pos, p, radius) == 1
    decreases |pos|
  {
    var k := |pos| - 1;
    if k == i {
      MaskedSumNone(pos[..k], vals[..k], p, radius);
    } else {
      MaskedSumOnlySelf(pos[..k], vals[..k], p, radius, i);
    }
  }

  lemma {:induction false} MaskedSumNone(pos: seq<Vec>, vals: seq<Vec>, p: Vec, radius: real)
    requires |pos| == |vals|
    requires forall j :: 0 <= j < |pos| ==> !Within(p, pos[j], radius)
    ensures MaskedSum(pos, vals, p, radius) == Zero
    ensures MaskCount(pos, p, radius) == 0
  {
    if |pos| > 0 {
      MaskedSumNone(pos[..|pos| - 1], vals[..|vals| - 1], p, radius);
    }
  }

  /** No agent other than `i` lies within the 50-unit radius of agent `i`. */
  ghost predicate Isolated(pos: seq<Vec>, i: nat)
    requires i < |pos|
  {
    forall j :: 0 <= j < |pos| && j != i ==> !Within(pos[i], pos[j], FlockRadius)
  }

  /** An agent with no other agent within 50 gets no separation and no
      cohesion, and its alignment is its own velocity clamped to
      `maxRuleVel`, because the mask includes the agent itself. */
  lemma IsolatedAgent(pos: seq<Vec>, vel: seq<Vec>, i: nat, norm: Vec -> real)
    requires |pos| == |vel| && i < |pos| && IsNorm(norm) && Isolated(pos, i)
    ensures Separation(pos, i, norm) == Zero
    ensures Cohesion(pos, i, norm) == Zero
    ensures Alignment(pos, vel, i, norm) == LimitVec(vel[i], MaxRuleVel, norm)
  {
    IsolatedRaw(pos, vel, i);
    RulesOfIsolated(pos, vel, i, norm);
  }

  /** So the velocity change `applyRules` gives an isolated agent is its
      own velocity clamped to `maxRuleVel`, not zero. */
  lemma IsolatedAgentDelta(pos: seq<Vec>, vel: seq<Vec>, i: nat, norm: Vec -> real)
    requires |pos| == |vel| && i < |pos| && IsNorm(norm) && Isolated(pos, i)
    ensures ApplyRules(pos, vel, norm)[i] == LimitVec(vel[i], MaxRuleVel, norm)
  {
    IsolatedAgent(pos, vel, i, norm);
    RowOfIsolated(pos, vel, i, norm);
  }

  lemma RulesOfIsolated(pos: seq<Vec>, vel: seq<Vec>, i: nat, norm: Vec -> real)
    requires |pos| == |vel| && i < |pos| && IsNorm(norm)
    requires RawSeparation(pos, i) == Zero && RawCohesion(pos, i) == Zero
    requires RawAlignment(pos, vel, i) == vel[i]
    ensures Separation(pos, i, norm) == Zero
    ensures Cohesion(pos, i, norm) == Zero
    ensures Alignment(pos, vel, i, norm) == LimitVec(vel[i], MaxRuleVel, norm)
  {
    LimitVecZero(MaxRuleVel, norm);
  }

  lemma RowOfIsolated(pos: seq<Vec>, vel: seq<Vec>, i: nat, norm: Vec -> real)
    requires |pos| == |vel| && i < |pos| && IsNorm(norm)
    requires Separation(pos, i, norm) == Zero && Cohesion(pos, i, norm) == Zero
    ensures ApplyRules(pos, vel, norm)[i] == Alignment(pos, vel, i, norm)
  {
    ApplyRulesAt(pos, vel, i, norm);
    AddZeros(Separation(pos, i, norm), Alignment(pos, vel, i, norm), Cohesion(pos, i, norm));
  }

  lemma AddZeros(s: Vec, a: Vec, c: Vec)
    requires s == Zero && c == Zero
    ensures Add(Add(s, a), c) == a
  {
  }

  /** One row of `applyRules`. */
  lemma ApplyRulesAt(pos: seq<Vec>, vel: seq<Vec>, i: nat, norm: Vec -> real)
    requires |pos| == |vel| && i < |pos| && IsNorm(norm)
    ensures ApplyRules(pos, vel, norm)[i]
         == Add(Add(Separation(pos, i, norm), Alignment(pos, vel, i, norm)), Cohesion(pos, i, norm))
  {
  }

  /** The dot product of two vectors is at most the product of their
      norms (Cauchy-Schwarz). */
  lemma DotBound(a: Vec, b: Vec, na: real, nb: real)
    requires na >= 0.0 && nb >= 0.0 && na * na == SqNorm(a) && nb * nb == SqNorm(b)
    ensures a.x * b.x + a.y * b.y <= na * nb
  {
    var d := a.x * b.x + a.y * b.y;
    if d > na * nb {
      var e := a.x * b.y - a.y * b.x;
      assert SqNorm(a) * SqNorm(b) == d * d + e * e;
      assert (na * nb) * (na * nb) == (na * na) * (nb * nb);
      assert e * e >= 0.0;
      MulNonNegative(na, nb);
      SquareMonotone(na * nb, d);
      assert false;
    }
  }

  lemma MulNonNegative(a: real, b: real)
    requires a >= 0.0 && b >= 0.0
    ensures a * b >= 0.0
  {
  }

  /** The triangle inequality for any norm of the `IsNorm` kind. */
  lemma Triangle(a: Vec, b: Vec, norm: Vec -> real)
    requires IsNorm(norm)
    ensures norm(Add(a, b)) <= norm(a) + norm(b)
  {
    var na, nb, nab := norm(a), norm(b), norm(Add(a, b));
    DotBound(a, b, na, nb);
    assert SqNorm(Add(a, b)) == SqNorm(a) + SqNorm(b) + 2.0 * (a.x * b.x + a.y * b.y);
    assert (na + nb) * (na + nb) == na * na + nb * nb + 2.0 * (na * nb);
    SquareMonotone(na + nb, nab);
  }

  /** Each rule is clamped on its own and the sum is not clamped again, so
      the change `applyRules` gives a velocity is bounded by three times
      `maxRuleVel`. */
  lemma ApplyRulesBound(pos: seq<Vec>, vel: seq<Vec>, i: nat, norm: Vec -> real)
    requires |pos| == |vel| && i < |pos| && IsNorm(norm)
    ensures norm(ApplyRules(pos, vel, norm)[i]) <= 3.0 * MaxRuleVel
  {
    var s, a, c := Separation(pos, i, norm), Alignment(pos, vel, i, norm), Cohesion(pos, i, norm);
    ApplyRulesAt(pos, vel, i, norm);
    Triangle(Add(s, a), c, norm);
    Triangle(s, a, norm);
  }

  /** Two agents at least `minDist` but less than 50 apart: the first gets
      no separation, the sum of both velocities as raw alignment and the
      position of the second as raw cohesion. */
  lemma PairRaw(p: Vec, q: Vec, u: Vec, w: Vec)
    requires MinDist * MinDist <= SqDist(p, q) < FlockRadius * FlockRadius
    ensures RawSeparation([p, q], 0) == Zero
    ensures RawAlignment([p, q], [u, w], 0) == Add(u, w)
    ensures RawCohesion([p, q], 0) == q
  {
    assert [p, q][..1] == [p] && [u, w][..1] == [u];
    assert [p][..0] == [] && [u][..0] == [];
    assert Within(p, p, MinDist) && !Within(p, q, MinDist);
    assert Within(p, p, FlockRadius) && Within(p, q, FlockRadius);
    assert MaskCount([p], p, MinDist) == 1 && MaskCount([p, q], p, MinDist) == 1;
    assert MaskedSum([p], [p], p, MinDist) == Add(Zero, p);
    assert MaskedSum([p, q], [p, q], p, MinDist) == Add(Zero, p);
    assert MaskedSum([p], [u], p, FlockRadius) == Add(Zero, u);
    assert MaskedSum([p, q], [u, w], p, FlockRadius) == Add(Add(Zero, u), w);
    assert MaskedSum([p], [p], p, FlockRadius) == Add(Zero, p);
    assert MaskedSum([p, q], [p, q], p, FlockRadius) == Add(Add(Zero, p), q);
  }

  /** A vector along the x axis longer than `maxRuleVel` is clamped to
      length `maxRuleVel` along the same axis. */
  lemma ClampAlongX(m: real, norm: Vec -> real)
    requires IsNorm(norm) && m > MaxRuleVel
    ensures LimitVec(Vec(m, 0.0), MaxRuleVel, norm) == Vec(MaxRuleVel, 0.0)
  {
    NormAlongX(m, norm);
    LimitVecScaled(Vec(m, 0.0), MaxRuleVel, norm);
  }

  lemma NormAlongX(m: real, norm: Vec -> real)
    requires IsNorm(norm) && m >= 0.0
    ensures norm(Vec(m, 0.0)) == m
  {
    SquareRootUnique(norm(Vec(m, 0.0)), m);
  }

  lemma TwoClampsAlongX()
    ensures Add(Add(Zero, Vec(MaxRuleVel, 0.0)), Vec(MaxRuleVel, 0.0)) == Vec(0.06, 0.0)
  {
  }

  /** So the first of two such agents changes its velocity by the clamped
      sum of the velocities plus the clamped position of the second. */
  lemma PairDelta(p: Vec, q: Vec, u: Vec, w: Vec, norm: Vec -> real)
    requires IsNorm(norm) && RawSeparation([p, q], 0) == Zero
    requires RawAlignment([p, q], [u, w], 0) == Add(u, w) && RawCohesion([p, q], 0) == q
    ensures ApplyRules([p, q], [u, w], norm)[0]
         == Add(Add(Zero, LimitVec(Add(u, w), MaxRuleVel, norm)), LimitVec(q, MaxRuleVel, norm))
  {
    LimitVecZero(MaxRuleVel, norm);
    ApplyRulesAt([p, q], [u, w], 0, norm);
  }

  lemma PairAt30(norm: Vec -> real, p: Vec, q: Vec, u: Vec)
    requires IsNorm(norm) && p == Zero && q == Vec(30.0, 0.0) && u == Vec(1.0, 0.0)
    ensures ApplyRules([p, q], [u, u], norm)[0]
         == Add(Add(Zero, LimitVec(Vec(2.0, 0.0), MaxRuleVel, norm)), LimitVec(Vec(30.0, 0.0), MaxRuleVel, norm))
  {
    PairRaw(p, q, u, u);
    PairDelta(p, q, u, u, norm);
    assert Add(u, u) == Vec(2.0, 0.0);
  }

  /** The bound of `maxRuleVel` does not hold for the sum: two agents 30
      apart, both moving along the line between them at unit speed, get no
      separation but full alignment and cohesion, twice `maxRuleVel` in all. */
  lemma RuleSumNotClamped(norm: Vec -> real, p: Vec, q: Vec, u: Vec)
    requires IsNorm(norm) && p == Zero && q == Vec(30.0, 0.0) && u == Vec(1.0, 0.0)
    ensures ApplyRules([p, q], [u, u], norm)[0] == Vec(0.06, 0.0)
    ensures norm(Vec(0.06, 0.0)) == 2.0 * MaxRuleVel > MaxRuleVel
  {
    PairAt30(norm, p, q, u);
    ClampAlongX(2.0, norm);
    ClampAlongX(30.0, norm);
    TwoClampsAlongX();
    NormAlongX(0.06, norm);
  }

  lemma IsolatedRaw(pos: seq<Vec>, vel: seq<Vec>, i: nat)
    requires |pos| == |vel| && i < |pos| && Isolated(pos, i)
    ensures RawSeparation(pos, i) == Zero
    ensures RawCohesion(pos, i) == Zero
    ensures RawAlignment(pos, vel, i) == vel[i]
  {
    assert Within(pos[i], pos[i], FlockRadius) && Within(pos[i], pos[i], MinDist);
    forall j | 0 <= j < |pos| && j != i
      ensures !Within(pos[i], pos[j], MinDist)
    {
      assert !Within(pos[i], pos[j], FlockRadius);
    }
    MaskedSumOnlySelf(pos, vel, pos[i], FlockRadius, i);
    MaskedSumOnlySelf(pos, pos, pos[i], FlockRadius, i);
    MaskedSumOnlySelf(pos, pos, pos[i], MinDist, i);
  }

  /** `buttonPress` with button 3, as a value: every velocity gains
      `0.1 * (pos[i] - click)`. */
  function Scatter(vel: seq<Vec>, pos: seq<Vec>, click: Vec): (r: seq<Vec>)
    requires |vel| == |pos|
    ensures |r| == |vel|
  {
    seq(|vel|, i requires 0 <= i < |vel| => Add(vel[i], Scale(Sub(pos[i], click), ScatterStrength)))
  }

  /** An agent at (0, 0) scattered from a click at (10, 0) gains
      velocity (-1, 0). */
  lemma ScatterExample(v: Vec)
    ensures Scatter([v], [Zero], Vec(10.0, 0.0)) == [Add(v, Vec(-1.0, 0.0))]
  {
  }

  /** The simulation state of the script's `Boids` object. */
  class Boids {
    var pos: array<Vec>
    var vel: array<Vec>
    var n: nat
    /** `numpy.linalg.norm`, supplied from outside. */
    const norm: Vec -> real

    ghost predicate Valid()
      reads this
    {
      IsNorm(norm) && pos.Length == n && vel.Length == n && pos != vel
    }

    /** `__init__`: `initPos` and `initVel` are the random draws, positions
        within 10 of the screen centre and unit-length velocities. */
    constructor (count: nat, initPos: seq<Vec>, initVel: seq<Vec>, norm: Vec -> real)
      requires |initPos| == count && |initVel| == count && IsNorm(norm)
      requires forall i :: 0 <= i < count ==>
        Width / 2.0 <= initPos[i].x < Width / 2.0 + 10.0 && Height / 2.0 <= initPos[i].y < Height / 2.0 + 10.0
      requires forall i :: 0 <= i < count ==> SqNorm(initVel[i]) == 1.0
      ensures Valid() && fresh(pos) && fresh(vel)
      ensures n == count && pos[..] == initPos && vel[..] == initVel && this.norm == norm
    {
      this.norm := norm;
      pos := new Vec[count](i requires 0 <= i < count => initPos[i]);
      vel := new Vec[count](i requires 0 <= i < count => initVel[i]);
      n := count;
    }

    /** `limit`: clamps every row of `a` in place. */
    method Limit(a: array<Vec>, maxVal: real)
      requires IsNorm(norm) && maxVal > 0.0
      modifies a
      ensures a[..] == LimitAll(old(a[..]), maxVal, norm)
    {
      var i := 0;
      while i < a.Length
        invariant 0 <= i <= a.Length
        invariant forall k :: 0 <= k < i ==> a[k] == LimitVec(old(a[k]), maxVal, norm)
        invariant forall k :: i <= k < a.Length ==> a[k] == old(a[k])
      {
        var v := a[i];
        var m := norm(v);
        if m > maxVal {
          LimitVecScaled(v, maxVal, norm);
          a[i] := Vec(v.x * maxVal / m, v.y * maxVal / m);
        }
        i := i + 1;
      }
    }

    /** `applyBC`: the margin wrap of every position, in place. */
    method ApplyBC()
      requires Valid()
      modifies pos
      ensures pos[..] == WrapAll(old(pos[..]))
    {
      var i := 0;
      while i < pos.Length
        invariant 0 <= i <= pos.Length
        invariant forall k :: 0 <= k < i ==> pos[k] == WrapPoint(old(pos[k]))
        invariant forall k :: i <= k < pos.Length ==> pos[k] == old(pos[k])
      {
        var x, y := pos[i].x, pos[i].y;
        if x > Width + Margin { x := -Margin; }
        if x < -Margin { x := Width + Margin; }
        if y > Height + Margin { y := -Margin; }
        if y < -Margin { y := Height + Margin; }
        pos[i] := Vec(x, y);
        i := i + 1;
      }
    }

    /** `tick` (simulation part): rules from the starting state, velocity
        update and clamp, position update, wrap. */
    method Tick()
      requires Valid()
      modifies pos, vel
      ensures Valid()
      ensures vel[..] == LimitAll(AddAll(old(vel[..]), ApplyRules(old(pos[..]), old(vel[..]), norm)), MaxVel, norm)
      ensures pos[..] == WrapAll(AddAll(old(pos[..]), vel[..]))
      ensures forall i :: 0 <= i < n ==> norm(vel[i]) <= MaxVel && InArena(pos[i])
    {
      var delta := ApplyRules(pos[..], vel[..], norm);
      forall k | 0 <= k < n {
        vel[k] := Add(vel[k], delta[k]);
      }
      assert vel[..] == AddAll(old(vel[..]), delta);
      Limit(vel, MaxVel);
      ghost var v := vel[..];
      forall k | 0 <= k < n {
        pos[k] := Add(pos[k], vel[k]);
      }
      assert pos[..] == AddAll(old(pos[..]), v);
      ApplyBC();
    }

    /** `buttonPress`: button 1 appends an agent at the click with the drawn
        unit `heading`; button 3 scatters every velocity away from the
        click; any other button changes nothing. */
    method ButtonPress(button: int, x: real, y: real, heading: Vec)
      requires Valid()
      requires button == 1 ==> SqNorm(heading) == 1.0
      modifies this, vel
      ensures Valid()
      ensures button == 1 ==>
        && n == old(n) + 1 && fresh(pos) && fresh(vel)
        && pos[..] == old(pos[..]) + [Vec(x, y)]
        && vel[..] == old(vel[..]) + [heading]
      ensures button == 3 ==>
        && n == old(n) && pos == old(pos) && vel == old(vel)
        && pos[..] == old(pos[..])
        && vel[..] == Scatter(old(vel[..]), old(pos[..]), Vec(x, y))
      ensures button != 1 && button != 3 ==>
        n == old(n) && pos == old(pos) && vel == old(vel) && vel[..] == old(vel[..])
    {
      if button == 1 {
        var p, v, count := pos[..] + [Vec(x, y)], vel[..] + [heading], n + 1;
        pos := new Vec[count](i requires 0 <= i < count => p[i]);
        vel := new Vec[count](i requires 0 <= i < count => v[i]);
        n := count;
      } else if button == 3 {
        var click := Vec(x, y);
        forall k | 0 <= k < n {
          vel[k] := Add(vel[k], Scale(Sub(pos[k], click), ScatterStrength));
        }
      }
    }
  }
}
