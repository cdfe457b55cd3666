/**
 * The integer Bresenham stepping of `buffer_draw_line` (buffer.c), as the
 * sequence of points the loop visits.
 */
module Line {

  function Abs(x: int): nat {
    if x < 0 then -x else x
  }

  function Max(a: int, b: int): int {
    if a < b then b else a
  }

  /**
   * What the loop fixes before it starts: the target and the constants
   * `dx = |x1-x0|`, `dy = -|y1-y0|`, `sx`, `sy` of the source.
   */
  datatype Seg = Seg(x1: int, y1: int, dx: int, dy: int, sx: int, sy: int)

  /** The loop variables the source mutates: `x0`, `y0` and `err`. */
  datatype Walk = Walk(x: int, y: int, err: int)

  function Setup(x0: int, y0: int, x1: int, y1: int): Seg {
    var dx: int := Abs(x1 - x0);
    var ady: int := Abs(y1 - y0);
    Seg(x1, y1, dx, -ady, if x0 < x1 then 1 else -1, if y0 < y1 then 1 else -1)
  }

  function Start(x0: int, y0: int, x1: int, y1: int): Walk {
    Walk(x0, y0, Setup(x0, y0, x1, y1).dx + Setup(x0, y0, x1, y1).dy)
  }

  /** Distance still to go along x and along y. */
  function RemX(s: Seg, w: Walk): nat { Abs(s.x1 - w.x) }
  function RemY(s: Seg, w: Walk): nat { Abs(s.y1 - w.y) }

  predicate AtTarget(s: Seg, w: Walk) {
    w.x == s.x1 && w.y == s.y1
  }

  /** The x axis is the major one (the longer run, x on ties). */
  predicate XMajor(s: Seg) {
    s.dx >= -s.dy
  }

  /**
   * The loop invariant: no overshoot, steps point at the target, `err` is
   * determined by the distances still to go, and the scaled deviation
   * `e = err - dx - dy` stays in the band that makes the major axis
   * advance on every step.
   */
  predicate Inv(s: Seg, w: Walk) {
    var e := w.err - s.dx - s.dy;
    && s.dx >= 0 && s.dy <= 0
    && (s.sx == 1 || s.sx == -1) && (s.sy == 1 || s.sy == -1)
    && RemX(s, w) <= s.dx && RemY(s, w) <= -s.dy
    && (w.x != s.x1 ==> s.sx == (if w.x < s.x1 then 1 else -1))
    && (w.y != s.y1 ==> s.sy == (if w.y < s.y1 then 1 else -1))
    && w.err == s.dx + s.dy - Times(s.dy, RemX(s, w)) - Times(s.dx, RemY(s, w))
    && (if XMajor(s) then -s.dx <= 2 * e <= s.dx else s.dy <= 2 * e < -s.dy)
  }

  /**
   * `a * n` as repeated addition, so that concrete walks evaluate without
   * nonlinear arithmetic.
   */
  function Times(a: int, n: nat): int {
    if n == 0 then 0 else Times(a, n - 1) + a
  }

  /** One pass of the loop body after the plot; both tests use the same `e2`. */
  function Next(s: Seg, w: Walk): Walk {
    var e2 := 2 * w.err;
    var x, err := if e2 >= s.dy then w.x + s.sx else w.x, if e2 >= s.dy then w.err + s.dy else w.err;
    var y, err' := if e2 <= s.dx then w.y + s.sy else w.y, if e2 <= s.dx then err + s.dx else err;
    Walk(x, y, err')
  }

  lemma {:induction false} TimesAtLeast(a: int, n: nat)
    requires a >= 0 && n >= 1
    ensures Times(a, n) >= a
  {
    if n > 1 {
      TimesAtLeast(a, n - 1);
    }
  }

  lemma {:induction false} TimesNegate(a: int, n: nat)
    ensures Times(-a, n) == -Times(a, n)
  {
    if n > 0 {
      TimesNegate(a, n - 1);
    }
  }

  lemma {:induction false} TimesIsProduct(a: int, n: nat)
    ensures Times(a, n) == a * n
  {
    if n > 0 {
      TimesIsProduct(a, n - 1);
    }
  }

  /** An axis that is on target never steps again. */
  lemma NoOvershoot(s: Seg, w: Walk)
    requires Inv(s, w) && !AtTarget(s, w)
    ensures RemX(s, w) == 0 ==> 2 * w.err < s.dy
    ensures RemY(s, w) == 0 ==> 2 * w.err > s.dx
  {
    var rx, ry := RemX(s, w), RemY(s, w);
    if rx == 0 {
      assert Times(s.dy, rx) == 0;
      TimesAtLeast(s.dx, ry);
    }
    if ry == 0 {
      assert Times(s.dx, ry) == 0;
      TimesAtLeast(-s.dy, rx);
      TimesNegate(s.dy, rx);
    }
  }

  /**
   * A step from any point other than the target keeps the invariant, moves
   * each coordinate by at most one and never away from the target, and
   * advances the major axis by exactly one.
   */
  lemma StepOk(s: Seg, w: Walk)
    requires Inv(s, w) && !AtTarget(s, w)
    ensures Inv(s, Next(s, w))
    ensures Abs(Next(s, w).x - w.x) <= 1 && Abs(Next(s, w).y - w.y) <= 1
    ensures RemX(s, Next(s, w)) <= RemX(s, w) && RemY(s, Next(s, w)) <= RemY(s, w)
    ensures XMajor(s) ==> RemX(s, Next(s, w)) == RemX(s, w) - 1
    ensures !XMajor(s) ==> RemY(s, Next(s, w)) == RemY(s, w) - 1
  {
    NoOvershoot(s, w);
    var n := Next(s, w);
    var stepX := 2 * w.err >= s.dy;
    var stepY := 2 * w.err <= s.dx;
    assert RemX(s, n) == if stepX then RemX(s, w) - 1 else RemX(s, w);
    assert RemY(s, n) == if stepY then RemY(s, w) - 1 else RemY(s, w);
  }

  /** The points the loop plots from `w` on, in order, ending at the target. */
  function Path(s: Seg, w: Walk): seq<(int, int)>
    requires Inv(s, w)
    decreases RemX(s, w) + RemY(s, w)
  {
    if AtTarget(s, w) then [(w.x, w.y)]
    else
      StepOk(s, w);
      [(w.x, w.y)] + Path(s, Next(s, w))
  }

  lemma StartOk(x0: int, y0: int, x1: int, y1: int)
    ensures Inv(Setup(x0, y0, x1, y1), Start(x0, y0, x1, y1))
  {
    var s := Setup(x0, y0, x1, y1);
    TimesIsProduct(s.dy, Abs(x1 - x0));
    TimesIsProduct(s.dx, Abs(y1 - y0));
  }

  /** The points `buffer_draw_line(x0, y0, x1, y1, ...)` plots, in order. */
  function Points(x0: int, y0: int, x1: int, y1: int): seq<(int, int)> {
    StartOk(x0, y0, x1, y1);
    Path(Setup(x0, y0, x1, y1), Start(x0, y0, x1, y1))
  }

  /**
   * The stepping half of the loop body: with `e2 = 2*err`, a step along x
   * when `e2 >= dy` and along y when `e2 <= dx`. From any point other than
   * the target it keeps the invariant and gets closer to the target.
   */
  method Advance(s: Seg, x: int, y: int, err: int) returns (x': int, y': int, err': int)
    requires Inv(s, Walk(x, y, err)) && !AtTarget(s, Walk(x, y, err))
    ensures Walk(x', y', err') == Next(s, Walk(x, y, err))
    ensures Inv(s, Walk(x', y', err'))
    ensures RemX(s, Walk(x', y', err')) + RemY(s, Walk(x', y', err')) < RemX(s, Walk(x, y, err)) + RemY(s, Walk(x, y, err))
  {
    StepOk(s, Walk(x, y, err));
    x', y', err' := x, y, err;
    var e2 := 2 * err;
    if e2 >= s.dy {
      err' := err' + s.dy;
      x' := x' + s.sx;
    }
    if e2 <= s.dx {
      err' := err' + s.dx;
      y' := y' + s.sy;
    }
  }

  // ---------------------------------------------------------------------
  // Properties of the walk
  // ---------------------------------------------------------------------

  lemma {:induction false} PathShape(s: Seg, w: Walk)
    requires Inv(s, w)
    ensures |Path(s, w)| >= 1
    ensures Path(s, w)[0] == (w.x, w.y)
    ensures Path(s, w)[|Path(s, w)| - 1] == (s.x1, s.y1)
    ensures XMajor(s) ==> |Path(s, w)| == RemX(s, w) + 1
    ensures !XMajor(s) ==> |Path(s, w)| == RemY(s, w) + 1
    decreases RemX(s, w) + RemY(s, w)
  {
    if !AtTarget(s, w) {
      StepOk(s, w);
      PathShape(s, Next(s, w));
    }
  }

  /** Consecutive points are distinct 8-neighbours and each step closes in on the target. */
  predicate GoodStep(s: Seg, a: (int, int), b: (int, int)) {
    && b != a
    && Abs(b.0 - a.0) <= 1 && Abs(b.1 - a.1) <= 1
    && Abs(s.x1 - b.0) <= Abs(s.x1 - a.0)
    && Abs(s.y1 - b.1) <= Abs(s.y1 - a.1)
  }

  lemma {:induction false} PathSteps(s: Seg, w: Walk)
    requires Inv(s, w)
    ensures forall k :: 0 <= k < |Path(s, w)| - 1 ==> GoodStep(s, Path(s, w)[k], Path(s, w)[k + 1])
    decreases RemX(s, w) + RemY(s, w)
  {
    if !AtTarget(s, w) {
      var n := Next(s, w);
      StepOk(s, w);
      PathSteps(s, n);
      PathShape(s, n);
      var p := Path(s, w);
      var q := Path(s, n);
      assert p == [(w.x, w.y)] + q;
      forall k | 0 <= k < |p| - 1
        ensures GoodStep(s, p[k], p[k + 1])
      {
        if k > 0 {
          assert p[k] == q[k - 1] && p[k + 1] == q[k];
        } else {
          assert p[1] == q[0] == (n.x, n.y);
        }
      }
    }
  }

  /**
   * The line from (x0, y0) to (x1, y1) starts and ends at its endpoints,
   * has `max(|x1-x0|, |y1-y0|) + 1` points, and every step moves each
   * coordinate by at most one, towards the target.
   */
  lemma PointsSpec(x0: int, y0: int, x1: int, y1: int)
    ensures |Points(x0, y0, x1, y1)| == Max(Abs(x1 - x0), Abs(y1 - y0)) + 1
    ensures Points(x0, y0, x1, y1)[0] == (x0, y0)
    ensures Points(x0, y0, x1, y1)[|Points(x0, y0, x1, y1)| - 1] == (x1, y1)
    ensures forall k :: 0 <= k < |Points(x0, y0, x1, y1)| - 1 ==>
              GoodStep(Setup(x0, y0, x1, y1), Points(x0, y0, x1, y1)[k], Points(x0, y0, x1, y1)[k + 1])
  {
    StartOk(x0, y0, x1, y1);
    PathShape(Setup(x0, y0, x1, y1), Start(x0, y0, x1, y1));
    PathSteps(Setup(x0, y0, x1, y1), Start(x0, y0, x1, y1));
  }

  /**
   * The shallow line from (0, 0) to (4, 2) of the classic Bresenham example:
   * where the two steps up fall is fixed by the error term, not just by the
   * step rule.
   */
  lemma ShallowSample()
    ensures Points(0, 0, 4, 2) == [(0, 0), (1, 1), (2, 1), (3, 2), (4, 2)]
  {
    PointsSpec(0, 0, 4, 2);
  }

  /** A horizontal walk visits every column in turn. */
  lemma {:induction false} HorizontalPath(s: Seg, w: Walk)
    requires Inv(s, w) && s.dy == 0 && w.y == s.y1 && w.x <= s.x1
    ensures |Path(s, w)| == s.x1 - w.x + 1
    ensures forall k :: 0 <= k < |Path(s, w)| ==> Path(s, w)[k] == (w.x + k, w.y)
    decreases RemX(s, w) + RemY(s, w)
  {
    if !AtTarget(s, w) {
      StepOk(s, w);
      var n := Next(s, w);
      assert n.x == w.x + 1 && n.y == w.y;
      HorizontalPath(s, n);
    }
  }

  lemma MulStep(a: int, k: int)
    ensures a * (k - 1) + a == a * k
  {
  }

  /** On a 45-degree segment the error term is 0, so each step moves both coordinates. */
  lemma DiagonalStep(s: Seg, w: Walk)
    requires Inv(s, w) && s.dx == -s.dy && RemX(s, w) == RemY(s, w) && !AtTarget(s, w)
    ensures Inv(s, Next(s, w)) && RemX(s, Next(s, w)) == RemY(s, Next(s, w)) == RemX(s, w) - 1
    ensures Next(s, w).x == w.x + s.sx && Next(s, w).y == w.y + s.sy
  {
    var r := RemX(s, w);
    TimesNegate(s.dy, r);
    assert Times(s.dx, r) == -Times(s.dy, r);
    assert w.err == 0;
    assert Next(s, w) == Walk(w.x + s.sx, w.y + s.sy, 0);
    assert w.x != s.x1 && w.y != s.y1;
    StepOk(s, w);
  }

  /** A 45-degree walk steps both coordinates every time. */
  lemma {:induction false} DiagonalPath(s: Seg, w: Walk)
    requires Inv(s, w) && s.dx == -s.dy && RemX(s, w) == RemY(s, w)
    ensures |Path(s, w)| == RemX(s, w) + 1
    ensures forall k :: 0 <= k < |Path(s, w)| ==> Path(s, w)[k] == (w.x + s.sx * k, w.y + s.sy * k)
    decreases RemX(s, w) + RemY(s, w)
  {
    if !AtTarget(s, w) {
      DiagonalStep(s, w);
      var n := Next(s, w);
      DiagonalPath(s, n);
      assert Path(s, w) == [(w.x, w.y)] + Path(s, n);
      forall k | 0 < k < |Path(s, w)|
        ensures Path(s, w)[k] == (w.x + s.sx * k, w.y + s.sy * k)
      {
        assert Path(s, w)[k] == Path(s, n)[k - 1];
        MulStep(s.sx, k);
        MulStep(s.sy, k);
      }
    }
  }

  /** `buffer_draw_line` along a row plots exactly the cells from x0 to x1. */
  lemma HorizontalLine(x0: int, x1: int, y: int)
    requires x0 <= x1
    ensures Points(x0, y, x1, y) == seq(x1 - x0 + 1, k => (x0 + k, y))
  {
    StartOk(x0, y, x1, y);
    HorizontalPath(Setup(x0, y, x1, y), Start(x0, y, x1, y));
  }

  /** A line at 45 degrees to the lower right plots the diagonal cells. */
  lemma DiagonalLine(x0: int, y0: int, n: nat)
    ensures Points(x0, y0, x0 + n, y0 + n) == seq(n + 1, k => (x0 + k, y0 + k))
  {
    StartOk(x0, y0, x0 + n, y0 + n);
    var s := Setup(x0, y0, x0 + n, y0 + n);
    var w := Start(x0, y0, x0 + n, y0 + n);
    DiagonalPath(s, w);
    if n > 0 {
      assert s.sx == 1 && s.sy == 1;
    }
  }
}
