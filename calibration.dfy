/** The radiometric calibration of `raw2temp`: a fixed table of eight cubic
    polynomials, one per reference focal-plane-array (FPA) temperature; the
    table's four coefficient columns interpolated at the capture's FPA
    temperature; and the interpolated cubic applied to every pixel of a raw
    raster of digital counts. */
module Calibration {
  import opened LinearInterp

  /** The four coefficients [a, b, c, d] of a·x³ + b·x² + c·x + d, in the order
      the source lists them. */
  datatype Cubic = Cubic(a: real, b: real, c: real, d: real)

  /** The k-th entry of a coefficient list (0 = a, 1 = b, 2 = c, 3 = d). */
  function Coefficient(p: Cubic, k: nat): real
    requires k < 4
  {
    if k == 0 then p.a else if k == 1 then p.b else if k == 2 then p.c else p.d
  }

  // The reference polynomials, one per reference FPA temperature (degrees).
  const P5: Cubic := Cubic(-2.634587235100472e-09, 6.130769700215367e-05,
                           -4.350477995778048e-01, 9.544260005306576e2)
  const P15: Cubic := Cubic(-6.018041990346753e-09, 1.403164304077759e-04,
                            -1.049703754495839, 2.547437846222635e3)
  const P20: Cubic := Cubic(-2.671172491930611e-09, 6.241064309639934e-05,
                            -4.484195421602772e-01, 1.010144114109549e3)
  const P25: Cubic := Cubic(-1.983581717393769e-09, 4.279525635707080e-05,
                            -2.680343341771736e-01, 4.699920069946522e2)
  const P30: Cubic := Cubic(-3.859617072855032e-09, 8.898414965915169e-05,
                            -6.459860053057492e-01, 1.498378686527253e3)
  const P35: Cubic := Cubic(2.795686755385618e-09, -6.118221864082072e-05,
                            4.820433347884710e-01, -1.322798944546627e3)
  const P40: Cubic := Cubic(-4.531711796485001e-09, 1.048040213336373e-04,
                            -7.693362093422826e-01, 1.817901230928576e3)
  const P45: Cubic := Cubic(-5.488794161933038e-09, 1.265335698783423e-04,
                            -9.331169837051072e-01, 2.228396565151564e3)

  /** The reference FPA temperatures, and the polynomial for each, in order. */
  const RefTemps: seq<real> := [5.0, 15.0, 20.0, 25.0, 30.0, 35.0, 40.0, 45.0]
  const RefPolys: seq<Cubic> := [P5, P15, P20, P25, P30, P35, P40, P45]

  /** Column k of the table (the lists `a`, `b`, `c`, `d`): the k-th
      coefficient of each reference polynomial, in reference order. */
  function Column(k: nat): (col: seq<real>)
    requires k < 4
    ensures |col| == |RefTemps| == |RefPolys|
    ensures forall i :: 0 <= i < |col| ==> col[i] == Coefficient(RefPolys[i], k)
  {
    [Coefficient(P5, k), Coefficient(P15, k), Coefficient(P20, k), Coefficient(P25, k),
     Coefficient(P30, k), Coefficient(P35, k), Coefficient(P40, k), Coefficient(P45, k)]
  }

  /** The table has eight strictly increasing reference temperatures, and
      each column pairs with them as an interpolation node table. */
  lemma TableWellFormed()
    ensures |RefTemps| == 8 && |RefPolys| == 8
    ensures StrictlyIncreasing(RefTemps)
    ensures RefTemps[0] == 5.0 && RefTemps[7] == 45.0
    ensures forall k :: 0 <= k < 4 ==> ValidNodes(RefTemps, Column(k))
  {
  }

  /** The coefficient vector `P_val`: each column interpolated at the FPA
      temperature t. Outside [5, 45] it is the nearer end polynomial. */
  function InterpolateCoefficients(t: real): (p: Cubic)
    ensures t <= 5.0 ==> p == P5
    ensures t >= 45.0 ==> p == P45
  {
    TableWellFormed();
    Cubic(Interp(t, RefTemps, Column(0)), Interp(t, RefTemps, Column(1)),
          Interp(t, RefTemps, Column(2)), Interp(t, RefTemps, Column(3)))
  }

  /** Interpolating at a reference temperature gives that temperature's own
      polynomial. */
  lemma InterpolateAtReference(i: nat)
    requires i < |RefTemps|
    ensures InterpolateCoefficients(RefTemps[i]) == RefPolys[i]
  {
    TableWellFormed();
    forall k | 0 <= k < 4
      ensures Interp(RefTemps[i], RefTemps, Column(k)) == Coefficient(RefPolys[i], k)
    {
      InterpAtNode(RefTemps, Column(k), i);
    }
    assert Interp(RefTemps[i], RefTemps, Column(0)) == RefPolys[i].a;
    assert Interp(RefTemps[i], RefTemps, Column(1)) == RefPolys[i].b;
    assert Interp(RefTemps[i], RefTemps, Column(2)) == RefPolys[i].c;
    assert Interp(RefTemps[i], RefTemps, Column(3)) == RefPolys[i].d;
  }

  /** The cubic whose every coefficient lies, at t, on the line through the
      corresponding coefficients of p (at t0) and q (at t1). */
  function LerpCubic(t0: real, p: Cubic, t1: real, q: Cubic, t: real): Cubic
    requires t0 < t1
  {
    Cubic(Lerp(t0, p.a, t1, q.a, t), Lerp(t0, p.b, t1, q.b, t),
          Lerp(t0, p.c, t1, q.c, t), Lerp(t0, p.d, t1, q.d, t))
  }

  /** Every coefficient of r lies between the corresponding ones of p and q. */
  predicate BetweenCubics(p: Cubic, r: Cubic, q: Cubic) {
    Between(p.a, r.a, q.a) && Between(p.b, r.b, q.b) &&
    Between(p.c, r.c, q.c) && Between(p.d, r.d, q.d)
  }

  /** Between two neighbouring reference temperatures every coefficient lies
      on the straight line through the two reference polynomials'
      coefficients, hence between them. */
  lemma InterpolateOnSegment(t: real, i: nat)
    requires i + 1 < |RefTemps| && RefTemps[i] <= t <= RefTemps[i + 1]
    ensures InterpolateCoefficients(t) == LerpCubic(RefTemps[i], RefPolys[i], RefTemps[i + 1], RefPolys[i + 1], t)
    ensures BetweenCubics(RefPolys[i], InterpolateCoefficients(t), RefPolys[i + 1])
  {
    TableWellFormed();
    var p, q := RefPolys[i], RefPolys[i + 1];
    InterpOnSegment(t, RefTemps, Column(0), i);
    assert Column(0)[i] == p.a && Column(0)[i + 1] == q.a;
    InterpOnSegment(t, RefTemps, Column(1), i);
    assert Column(1)[i] == p.b && Column(1)[i + 1] == q.b;
    InterpOnSegment(t, RefTemps, Column(2), i);
    assert Column(2)[i] == p.c && Column(2)[i + 1] == q.c;
    InterpOnSegment(t, RefTemps, Column(3), i);
    assert Column(3)[i] == p.d && Column(3)[i + 1] == q.d;
  }

  /** The calibration polynomial `a·x³ + b·x² + c·x + d` at one pixel value. */
  function Evaluate(p: Cubic, x: real): real {
    p.a * (x * x * x) + p.b * (x * x) + p.c * x + p.d
  }

  /** One raster row, calibrated pixel by pixel with the cubic p. */
  function CalibrateRow(p: Cubic, row: seq<real>): (out: seq<real>)
    ensures |out| == |row|
    ensures forall j :: 0 <= j < |row| ==> out[j] == Evaluate(p, row[j])
  {
    if row == [] then [] else [Evaluate(p, row[0])] + CalibrateRow(p, row[1..])
  }

  /** `raw2temp`: a new raster of the same shape whose pixel [i][j] is the
      interpolated cubic at FPA temperature t applied to raw pixel [i][j]. */
  function Raw2Temp(raster: seq<seq<real>>, t: real): (out: seq<seq<real>>)
    ensures |out| == |raster|
    ensures forall i :: 0 <= i < |raster| ==> |out[i]| == |raster[i]|
    ensures forall i, j :: 0 <= i < |raster| && 0 <= j < |raster[i]| ==>
      out[i][j] == Evaluate(InterpolateCoefficients(t), raster[i][j])
  {
    if raster == [] then []
    else [CalibrateRow(InterpolateCoefficients(t), raster[0])] + Raw2Temp(raster[1..], t)
  }

  /** Every row of the raster has exactly `cols` pixels. */
  predicate Rectangular(raster: seq<seq<real>>, cols: nat) {
    forall i :: 0 <= i < |raster| ==> |raster[i]| == cols
  }

  /** Calibration keeps an R x C raster an R x C raster. */
  lemma Raw2TempKeepsShape(raster: seq<seq<real>>, cols: nat, t: real)
    requires Rectangular(raster, cols)
    ensures |Raw2Temp(raster, t)| == |raster| && Rectangular(Raw2Temp(raster, t), cols)
  {
  }

  /** FPA temperatures outside the calibrated range give the same raster as
      the nearer end of the range: there is no extrapolation. */
  lemma Raw2TempClamped(raster: seq<seq<real>>, t: real)
    ensures t <= 5.0 ==> Raw2Temp(raster, t) == Raw2Temp(raster, 5.0)
    ensures t >= 45.0 ==> Raw2Temp(raster, t) == Raw2Temp(raster, 45.0)
  {
    var lo, hi, out := Raw2Temp(raster, 5.0), Raw2Temp(raster, 45.0), Raw2Temp(raster, t);
    if t <= 5.0 {
      assert forall i :: 0 <= i < |raster| ==> out[i] == lo[i];
    }
    if t >= 45.0 {
      assert forall i :: 0 <= i < |raster| ==> out[i] == hi[i];
    }
  }

  /** At a reference temperature every pixel is calibrated with that
      temperature's own polynomial. */
  lemma Raw2TempAtReference(raster: seq<seq<real>>, k: nat, i: nat, j: nat)
    requires k < |RefTemps| && i < |raster| && j < |raster[i]|
    ensures Raw2Temp(raster, RefTemps[k])[i][j] == Evaluate(RefPolys[k], raster[i][j])
  {
    InterpolateAtReference(k);
  }

  /** A zero pixel calibrates to the interpolated constant coefficient d. */
  lemma ZeroPixel(raster: seq<seq<real>>, t: real, i: nat, j: nat)
    requires i < |raster| && j < |raster[i]| && raster[i][j] == 0.0
    ensures Raw2Temp(raster, t)[i][j] == InterpolateCoefficients(t).d
  {
  }

  /** At FPA temperature 25 an all-zero raster calibrates to the 25-degree
      polynomial's constant term everywhere. */
  lemma ZeroRasterAt25(raster: seq<seq<real>>)
    requires forall i, j :: 0 <= i < |raster| && 0 <= j < |raster[i]| ==> raster[i][j] == 0.0
    ensures forall i, j :: 0 <= i < |raster| && 0 <= j < |raster[i]| ==>
      Raw2Temp(raster, 25.0)[i][j] == 469.9920069946522
  {
    InterpolateAtReference(3);
  }

  /** The coefficient-wise blend of p and q that moves the fraction s of the
      way from p to q. */
  function Blend(p: Cubic, q: Cubic, s: real): Cubic {
    Cubic(p.a + s * (q.a - p.a), p.b + s * (q.b - p.b),
          p.c + s * (q.c - p.c), p.d + s * (q.d - p.d))
  }

  /** The cubic depends linearly on its coefficients: evaluating a blend of
      p and q is blending their evaluations. */
  lemma EvaluateBlend(p: Cubic, q: Cubic, s: real, x: real)
    ensures Evaluate(Blend(p, q, s), x) == Evaluate(p, x) + s * (Evaluate(q, x) - Evaluate(p, x))
  {
    var x3, x2 := x * x * x, x * x;
    assert (p.a + s * (q.a - p.a)) * x3 == p.a * x3 + s * (q.a * x3 - p.a * x3);
    assert (p.b + s * (q.b - p.b)) * x2 == p.b * x2 + s * (q.b * x2 - p.b * x2);
    assert (p.c + s * (q.c - p.c)) * x == p.c * x + s * (q.c * x - p.c * x);
  }

  /** The coefficient-wise line between p and q is their blend by the
      fraction of [t0, t1] that t has covered. */
  lemma LerpCubicIsBlend(t0: real, p: Cubic, t1: real, q: Cubic, t: real)
    requires t0 < t1
    ensures LerpCubic(t0, p, t1, q, t) == Blend(p, q, (t - t0) / (t1 - t0))
  {
    LerpAsBlend(t0, p.a, t1, q.a, t);
    LerpAsBlend(t0, p.b, t1, q.b, t);
    LerpAsBlend(t0, p.c, t1, q.c, t);
    LerpAsBlend(t0, p.d, t1, q.d, t);
  }

  /** Evaluating the coefficient-wise line between p and q is the line
      between their evaluations. */
  lemma EvaluateLerpCubicIsLine(t0: real, p: Cubic, t1: real, q: Cubic, t: real, x: real)
    requires t0 < t1
    ensures Evaluate(LerpCubic(t0, p, t1, q, t), x) == Lerp(t0, Evaluate(p, x), t1, Evaluate(q, x), t)
  {
    var s, ep, eq := (t - t0) / (t1 - t0), Evaluate(p, x), Evaluate(q, x);
    LerpCubicIsBlend(t0, p, t1, q, t);
    EvaluateBlend(p, q, s, x);
    LerpAsBlend(t0, ep, t1, eq, t);
  }

  /** Evaluating the coefficient-wise line between p and q is the line
      between their evaluations, and so lies between them. */
  lemma EvaluateLerpCubic(t0: real, p: Cubic, t1: real, q: Cubic, t: real, x: real)
    requires t0 < t1 && t0 <= t <= t1
    ensures Evaluate(LerpCubic(t0, p, t1, q, t), x) == Lerp(t0, Evaluate(p, x), t1, Evaluate(q, x), t)
    ensures Between(Evaluate(p, x), Evaluate(LerpCubic(t0, p, t1, q, t), x), Evaluate(q, x))
  {
    EvaluateLerpCubicIsLine(t0, p, t1, q, t, x);
    LerpBetween(t0, Evaluate(p, x), t1, Evaluate(q, x), t);
  }
}
