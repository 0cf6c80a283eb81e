/** One-dimensional piecewise-linear interpolation, as numpy's `interp(x, xp, fp)`
    computes it with its default `left` and `right` arguments: the node
    abscissae `xp` are strictly increasing, and a query outside
    [xp[0], xp[|xp|-1]] takes the value at the nearer end (the ends are
    clamped, never extrapolated). Arithmetic is exact, over `real`. */
module LinearInterp {

  predicate StrictlyIncreasing(xs: seq<real>) {
    forall i, j :: 0 <= i < j < |xs| ==> xs[i] < xs[j]
  }

  /** What `interp` needs of its node table: as many values as abscissae, at
      least one node, abscissae strictly increasing. */
  predicate ValidNodes(xp: seq<real>, fp: seq<real>) {
    |xp| == |fp| && |xp| > 0 && StrictlyIncreasing(xp)
  }

  /** The point of the straight line through (x0, y0) and (x1, y1) above x. */
  function Lerp(x0: real, y0: real, x1: real, y1: real, x: real): real
    requires x0 < x1
  {
    y0 + (x - x0) * (y1 - y0) / (x1 - x0)
  }

  /** True when y lies on the closed segment between y0 and y1, in either order. */
  predicate Between(y0: real, y: real, y1: real) {
    (y0 <= y <= y1) || (y1 <= y <= y0)
  }

  /** The index j of the segment [xp[j], xp[j+1]) that holds x, searching
      from j upwards. */
  function SegmentFrom(x: real, xp: seq<real>, j: nat): (k: nat)
    requires StrictlyIncreasing(xp)
    requires j + 1 < |xp| && xp[j] <= x < xp[|xp| - 1]
    ensures j <= k && k + 1 < |xp|
    ensures xp[k] <= x < xp[k + 1]
    decreases |xp| - j
  {
    if x < xp[j + 1] then j else SegmentFrom(x, xp, j + 1)
  }

  /** `interp(x, xp, fp)`: below the first node the first value, above the
      last node the last value, at the last node the last value, and
      otherwise `slope * (x - xp[j]) + fp[j]` on the segment j holding x. */
  function Interp(x: real, xp: seq<real>, fp: seq<real>): (r: real)
    requires ValidNodes(xp, fp)
    ensures x <= xp[0] ==> r == fp[0]
    ensures x >= xp[|xp| - 1] ==> r == fp[|fp| - 1]
  {
    var last := |xp| - 1;
    if x < xp[0] then fp[0]
    else if x > xp[last] then fp[last]
    else if x == xp[last] then fp[last]
    else
      var j := SegmentFrom(x, xp, 0);
      var slope := (fp[j + 1] - fp[j]) / (xp[j + 1] - xp[j]);
      slope * (x - xp[j]) + fp[j]
  }

  /** The segment search finds the one segment that holds x. */
  lemma {:induction false} SegmentFromFinds(x: real, xp: seq<real>, j: nat, i: nat)
    requires StrictlyIncreasing(xp)
    requires j <= i && i + 1 < |xp| && xp[j] <= x < xp[|xp| - 1]
    requires xp[i] <= x < xp[i + 1]
    ensures SegmentFrom(x, xp, j) == i
    decreases i - j
  {
    if j < i {
      assert xp[j + 1] <= xp[i];
      SegmentFromFinds(x, xp, j + 1, i);
    }
  }

  /** numpy's slope-times-offset form and the two-point form of the line agree. */
  lemma SlopeFormIsLerp(x0: real, y0: real, x1: real, y1: real, x: real)
    requires x0 < x1
    ensures (y1 - y0) / (x1 - x0) * (x - x0) + y0 == Lerp(x0, y0, x1, y1, x)
  {
    var w, dx, dy := x1 - x0, x - x0, y1 - y0;
    assert dy / w * w == dy;
    assert dx * dy / w * w == dx * dy;
    assert (dy / w * dx) * w == dx * dy;
  }

  /** The line as a blend: y0 moved the fraction (x - x0) / (x1 - x0) of the
      way towards y1. */
  lemma LerpAsBlend(x0: real, y0: real, x1: real, y1: real, x: real)
    requires x0 < x1
    ensures Lerp(x0, y0, x1, y1, x) == y0 + (x - x0) / (x1 - x0) * (y1 - y0)
  {
    var w, dx, dy := x1 - x0, x - x0, y1 - y0;
    assert dx * dy / w * w == dx * dy;
    assert (dx / w * dy) * w == dx * dy;
  }

  /** The value on the line through two nodes lies between their values
      whenever the query lies between their abscissae. */
  lemma LerpBetween(x0: real, y0: real, x1: real, y1: real, x: real)
    requires x0 < x1 && x0 <= x <= x1
    ensures Between(y0, Lerp(x0, y0, x1, y1, x), y1)
  {
    var w, dx, dy := x1 - x0, x - x0, y1 - y0;
    var t := dx / w;
    assert t * w == dx;
    assert 0.0 <= t <= 1.0 by {
      assert (1.0 - t) * w == w - dx;
    }
    assert dx * dy / w * w == dx * dy;
    assert (t * dy) * w == dx * dy;
    assert Lerp(x0, y0, x1, y1, x) == y0 + t * dy;
    if y0 <= y1 {
      assert 0.0 <= t * dy <= dy by {
        assert (1.0 - t) * dy >= 0.0;
      }
    } else {
      assert dy <= t * dy <= 0.0 by {
        assert (1.0 - t) * dy <= 0.0;
      }
    }
  }

  /** Inside the half-open segment [xp[i], xp[i+1]) the interpolant is the
      line through the two neighbouring nodes. */
  lemma InterpInsideSegment(x: real, xp: seq<real>, fp: seq<real>, i: nat)
    requires ValidNodes(xp, fp)
    requires i + 1 < |xp| && xp[i] <= x < xp[i + 1]
    ensures Interp(x, xp, fp) == Lerp(xp[i], fp[i], xp[i + 1], fp[i + 1], x)
  {
    var last := |xp| - 1;
    assert xp[0] <= xp[i] && xp[i + 1] <= xp[last];
    SegmentFromFinds(x, xp, 0, i);
    SlopeFormIsLerp(xp[i], fp[i], xp[i + 1], fp[i + 1], x);
  }

  /** On every closed segment [xp[i], xp[i+1]] the interpolant is the straight
      line through the two neighbouring nodes, so it lies between their
      values. */
  lemma InterpOnSegment(x: real, xp: seq<real>, fp: seq<real>, i: nat)
    requires ValidNodes(xp, fp)
    requires i + 1 < |xp| && xp[i] <= x <= xp[i + 1]
    ensures Interp(x, xp, fp) == Lerp(xp[i], fp[i], xp[i + 1], fp[i + 1], x)
    ensures Between(fp[i], Interp(x, xp, fp), fp[i + 1])
  {
    if x < xp[i + 1] {
      InterpInsideSegment(x, xp, fp, i);
    } else {
      var w, dy := xp[i + 1] - xp[i], fp[i + 1] - fp[i];
      assert w * dy / w == dy;
      assert Lerp(xp[i], fp[i], xp[i + 1], fp[i + 1], x) == fp[i + 1];
      if i + 2 < |xp| {
        // The right end of segment i is the left end of segment i + 1.
        InterpInsideSegment(x, xp, fp, i + 1);
      }
    }
    LerpBetween(xp[i], fp[i], xp[i + 1], fp[i + 1], x);
  }

  /** Interpolating at a node reproduces the value stored for it. */
  lemma InterpAtNode(xp: seq<real>, fp: seq<real>, i: nat)
    requires ValidNodes(xp, fp) && i < |xp|
    ensures Interp(xp[i], xp, fp) == fp[i]
  {
    if i + 1 < |xp| {
      InterpOnSegment(xp[i], xp, fp, i);
    }
  }

  /** The interpolant never leaves the range of the stored values. */
  lemma {:induction false} InterpWithinValues(x: real, xp: seq<real>, fp: seq<real>)
    requires ValidNodes(xp, fp)
    ensures exists k :: 0 <= k < |fp| && fp[k] <= Interp(x, xp, fp)
    ensures exists k :: 0 <= k < |fp| && Interp(x, xp, fp) <= fp[k]
  {
    var last := |xp| - 1;
    if x <= xp[0] {
      assert fp[0] == Interp(x, xp, fp);
    } else if x >= xp[last] {
      assert fp[last] == Interp(x, xp, fp);
    } else {
      var i := SegmentFrom(x, xp, 0);
      InterpOnSegment(x, xp, fp, i);
      if fp[i] <= fp[i + 1] {
        assert fp[i] <= Interp(x, xp, fp) <= fp[i + 1];
      } else {
        assert fp[i + 1] <= Interp(x, xp, fp) <= fp[i];
      }
    }
  }
}
