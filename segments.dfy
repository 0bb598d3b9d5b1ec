/**
 * The straight-line step shared by both interpolation modes: the value at `x` on the segment
 * from `(x0, y0)` to `(x1, y1)`, written as the source writes it, with its properties.
 */
module Segments {
  import opened Collections

  /** The two nodes on either side of an interior query point. */
  datatype Chord = Chord(x0: real, y0: real, x1: real, y1: real)

  /**
   * `i = xs.FindIndex(e => x < e)` and the nodes `i - 1` and `i` around `x`; called only strictly
   * inside the range of the nodes.
   */
  function Bracket(x: real, xs: seq<real>, ys: seq<real>): (c: Chord)
    requires |xs| == |ys| > 0 && StrictlyIncreasing(xs)
    requires xs[0] < x < xs[|xs| - 1]
    ensures xs[0] <= c.x0 <= x < c.x1 <= xs[|xs| - 1]
  {
    FindIndexBrackets(xs, x);
    var i := FindIndex(xs, x);
    Chord(xs[i - 1], ys[i - 1], xs[i], ys[i])
  }

  /** The bracket is a pair of consecutive nodes: the first node is the last one not above `x`. */
  lemma BracketIsConsecutive(x: real, xs: seq<real>, ys: seq<real>)
    requires |xs| == |ys| > 0 && StrictlyIncreasing(xs)
    requires xs[0] < x < xs[|xs| - 1]
    ensures var i := FindIndex(xs, x);
      && 1 <= i < |xs|
      && Bracket(x, xs, ys) == Chord(xs[i - 1], ys[i - 1], xs[i], ys[i])
      && (forall j :: 0 <= j < i ==> xs[j] <= x)
      && (forall j :: i <= j < |xs| ==> x < xs[j])
  {
    FindIndexBrackets(xs, x);
  }

  /** At an inner node the bracket starts at that node. */
  lemma BracketAtNode(xs: seq<real>, ys: seq<real>, k: nat)
    requires |xs| == |ys| && StrictlyIncreasing(xs)
    requires 0 < k < |xs| - 1
    ensures Bracket(xs[k], xs, ys) == Chord(xs[k], ys[k], xs[k + 1], ys[k + 1])
  {
    FindIndexAtNode(xs, k);
  }

  /** The value at `x` on the straight line through the chord's two nodes. */
  function Lerp(x: real, c: Chord): real
    requires c.x0 < c.x1
  {
    c.y0 + (x - c.x0) * (c.y1 - c.y0) / (c.x1 - c.x0)
  }

  predicate Between(v: real, a: real, b: real)
  {
    (a <= v <= b) || (b <= v <= a)
  }

  /** The point `(x, Lerp(x, c))` is collinear with the chord's two nodes. */
  lemma LerpOnLine(x: real, c: Chord)
    requires c.x0 < c.x1
    ensures (Lerp(x, c) - c.y0) * (c.x1 - c.x0) == (x - c.x0) * (c.y1 - c.y0)
  {
    var d := c.x1 - c.x0;
    var n := (x - c.x0) * (c.y1 - c.y0);
    assert (n / d) * d == n;
  }

  /** Between the nodes' abscissas the value lies between their ordinates. */
  lemma LerpBetween(x: real, c: Chord)
    requires c.x0 <= x <= c.x1 && c.x0 < c.x1
    ensures Between(Lerp(x, c), c.y0, c.y1)
  {
    var t := (x - c.x0) / (c.x1 - c.x0);
    FractionInUnit(x - c.x0, c.x1 - c.x0);
    DivideFirst(x - c.x0, c.y1 - c.y0, c.x1 - c.x0);
    assert Lerp(x, c) == c.y0 + t * (c.y1 - c.y0);
    if c.y0 <= c.y1 {
      ScaleDown(t, c.y1 - c.y0);
    } else {
      ScaleDownNegative(t, c.y1 - c.y0);
    }
  }

  /**
   * Between the nodes, raising both ordinates raises the interpolated value: the segment through
   * the higher ordinates lies above the one through the lower ordinates.
   */
  lemma LerpAbove(x: real, c: Chord, d: Chord)
    requires c.x0 == d.x0 && c.x1 == d.x1 && c.x0 <= x <= c.x1 && c.x0 < c.x1
    requires c.y0 > d.y0 && c.y1 > d.y1
    ensures Lerp(x, c) > Lerp(x, d)
  {
    var t := (x - c.x0) / (c.x1 - c.x0);
    FractionInUnit(x - c.x0, c.x1 - c.x0);
    DivideFirst(x - c.x0, c.y1 - c.y0, c.x1 - c.x0);
    DivideFirst(x - c.x0, d.y1 - d.y0, c.x1 - c.x0);
    BlendPositive(t, c.y0 - d.y0, c.y1 - d.y1);
    assert Lerp(x, c) - Lerp(x, d) == (1.0 - t) * (c.y0 - d.y0) + t * (c.y1 - d.y1);
  }

  lemma BlendPositive(t: real, p: real, q: real)
    requires 0.0 <= t <= 1.0 && p > 0.0 && q > 0.0
    ensures (1.0 - t) * p + t * q > 0.0
  {
    ScaleDown(t, q);
    if t < 1.0 {
      assert (1.0 - t) * p > 0.0;
    } else {
      assert t * q == q;
    }
  }

  /** At its first node the line takes that node's value. */
  lemma LerpAtStart(c: Chord)
    requires c.x0 < c.x1
    ensures Lerp(c.x0, c) == c.y0
  {
  }

  /** The straight line `a + b * x`. */
  function LineAt(a: real, b: real, x: real): real
  {
    a + b * x
  }

  /** On a chord whose nodes lie on a straight line, the interpolation reproduces that line exactly. */
  lemma LerpOfLine(x: real, c: Chord, a: real, b: real)
    requires c.x0 < c.x1
    requires c.y0 == LineAt(a, b, c.x0) && c.y1 == LineAt(a, b, c.x1)
    ensures Lerp(x, c) == LineAt(a, b, x)
  {
    var d := c.x1 - c.x0;
    assert c.y1 - c.y0 == b * d;
    assert (x - c.x0) * (b * d) / d == (x - c.x0) * b;
  }

  lemma FractionInUnit(n: real, d: real)
    requires 0.0 <= n <= d && d > 0.0
    ensures 0.0 <= n / d <= 1.0
  {
  }

  lemma DivideFirst(n: real, m: real, d: real)
    requires d != 0.0
    ensures n * m / d == (n / d) * m
  {
  }

  lemma ScaleDownNegative(t: real, v: real)
    requires 0.0 <= t <= 1.0 && v <= 0.0
    ensures v <= t * v <= 0.0
  {
    ScaleDown(t, -v);
    assert t * v == -(t * -v);
  }

  lemma ScaleDown(t: real, v: real)
    requires 0.0 <= t <= 1.0 && v >= 0.0
    ensures 0.0 <= t * v <= v
  {
  }
}
