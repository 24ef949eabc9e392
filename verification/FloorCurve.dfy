/** Floor type 1: predicting points on lines, and drawing the curve through the points in use. */
module FloorCurve {
  import opened Numbers

  // ----- lines -----

  function Abs(n: int): nat { if n < 0 then -n else n }

  /** Division as the machine does it, towards zero. */
  function Quotient(n: int, d: int): int
    requires d > 0
  {
    if n < 0 then -((-n) / d) else n / d
  }

  function PredictPoint(x: int, x0: int, x1: int, y0: int, y1: int): int
    requires x0 <= x && x0 < x1
  {
    var dy, adx := y1 - y0, x1 - x0;
    var err := Abs(dy) * (x - x0);
    var off := Quotient(err, adx);
    if dy < 0 then y0 - off else y0 + off
  }

  lemma QuotientIs(n: nat, d: nat, q: int, r: nat)
    requires d > 0 && n == q * d + r && r < d
    ensures n / d == q
  {
    var k := n / d - q;
    assert n == (n / d) * d + n % d;
    assert k * d == (n / d) * d - q * d;
    assert k > 0 ==> k * d >= d;
    assert k < 0 ==> k * d + d <= 0;
  }

  lemma QuotientBound(n: nat, d: nat, m: nat)
    requires d > 0 && n <= m * d
    ensures 0 <= n / d <= m
  {
    var q := n / d;
    assert q > m ==> q * d >= (m + 1) * d;
    assert (m + 1) * d == m * d + d;
  }

  /** A point on a line lies between its ends. */
  lemma PredictBetween(x: int, x0: int, x1: int, y0: int, y1: int)
    requires x0 <= x <= x1 && x0 < x1
    ensures var y := PredictPoint(x, x0, x1, y0, y1); y0 <= y <= y1 || y1 <= y <= y0
  {
    var ady := Abs(y1 - y0);
    assert ady * (x - x0) <= ady * (x1 - x0);
    QuotientBound(ady * (x - x0), x1 - x0, ady);
  }

  /** `v` is the height of the line at `x`, rounded to the side of its left end. */
  predicate RoundsLine(x: int, x0: int, x1: int, y0: int, y1: int, v: int) {
    var exact, width := y0 * (x1 - x) + y1 * (x - x0), x1 - x0;
    if y0 <= y1 then 0 <= exact - v * width < width else 0 <= v * width - exact < width
  }

  /** The prediction is that height and no other. */
  lemma {:induction false} PredictRounds(x: int, x0: int, x1: int, y0: int, y1: int, v: int)
    requires x0 <= x && x0 < x1
    ensures RoundsLine(x, x0, x1, y0, y1, v) <==> v == PredictPoint(x, x0, x1, y0, y1)
  {
    var width, dy := x1 - x0, y1 - y0;
    var n := Abs(dy) * (x - x0);
    var q, k := n / width, if dy < 0 then y0 - v else v - y0;
    ExactHeight(x, x0, x1, y0, y1);
    ScaledHeight(v, y0, width);
    WholeQuotient(n, width, k);
  }

  lemma ExactHeight(x: int, x0: int, x1: int, y0: int, y1: int)
    ensures y0 * (x1 - x) + y1 * (x - x0) == y0 * (x1 - x0) + (y1 - y0) * (x - x0)
    ensures y1 < y0 ==> (y1 - y0) * (x - x0) == -((y0 - y1) * (x - x0))
  {
    assert y0 * (x1 - x) == y0 * (x1 - x0) - y0 * (x - x0);
    assert (y1 - y0) * (x - x0) == y1 * (x - x0) - y0 * (x - x0);
  }

  lemma ScaledHeight(v: int, y0: int, width: int)
    ensures v * width == y0 * width + (v - y0) * width && (y0 - v) * width == y0 * width - v * width
  {
    assert (v - y0) * width == v * width - y0 * width;
  }

  lemma WholeQuotient(n: nat, d: nat, k: int)
    requires d > 0
    ensures 0 <= n - k * d < d <==> k == n / d
  {
    if 0 <= n - k * d < d { QuotientIs(n, d, k, n - k * d); }
    assert n == (n / d) * d + n % d;
  }

  /** A line starts and ends where it should. */
  lemma PredictEnds(x0: int, x1: int, y0: int, y1: int)
    requires x0 < x1
    ensures PredictPoint(x0, x0, x1, y0, y1) == y0 && PredictPoint(x1, x0, x1, y0, y1) == y1
  {
    var ady := Abs(y1 - y0);
    QuotientIs(0, x1 - x0, 0, 0);
    QuotientIs(ady * (x1 - x0), x1 - x0, ady, 0);
  }

  /** `n` places into a line that climbs `d` over `adx` places, with whole height `off` and the
      error `err` left over. */
  predicate OnLine(n: int, d: int, adx: int, off: int, err: int) {
    0 <= err < adx && d * n == off * adx + err
  }

  lemma OnLineIsPredicted(x: int, x0: int, x1: int, y0: int, y1: int, off: int, err: int)
    requires x0 <= x && x0 < x1 && OnLine(x - x0, Abs(y1 - y0), x1 - x0, off, err)
    ensures PredictPoint(x, x0, x1, y0, y1) == if y1 < y0 then y0 - off else y0 + off
  {
    QuotientIs(Abs(y1 - y0) * (x - x0), x1 - x0, off, err);
  }

  /** One step: the slope's whole part, and one more when the error makes up a place. */
  lemma LineStep(n: int, d: nat, adx: nat, off: int, err: int, b: int, r: int)
    requires adx > 0 && OnLine(n, d, adx, off, err) && b == d / adx && r == d - b * adx
    ensures if err + r >= adx then OnLine(n + 1, d, adx, off + b + 1, err + r - adx)
              else OnLine(n + 1, d, adx, off + b, err + r)
  {
    RestBelow(d, adx);
    StepSum(d, adx, n, off, err, b);
  }

  lemma RestBelow(d: nat, adx: nat)
    requires adx > 0
    ensures 0 <= d - (d / adx) * adx < adx
  {
    assert d == (d / adx) * adx + d % adx;
  }

  lemma StepSum(d: int, adx: int, n: int, off: int, err: int, b: int)
    requires d * n == off * adx + err
    ensures d * (n + 1) == (off + b) * adx + (err + (d - b * adx))
    ensures d * (n + 1) == (off + b + 1) * adx + (err + (d - b * adx) - adx)
  {
    assert d * (n + 1) == d * n + d;
    assert (off + b) * adx == off * adx + b * adx;
    assert (off + b + 1) * adx == (off + b) * adx + adx;
  }

  /** The line from one point to another, with the slope the incremental form goes by. */
  datatype Line = Line(x0: nat, x1: nat, y0: int, y1: int) {
    predicate Ok() { x0 < x1 }

    function At(x: int): int
      requires Ok() && x0 <= x
    {
      PredictPoint(x, x0, x1, y0, y1)
    }

    function Level<V>(table: seq<V>, x: int): V
      requires Ok() && x0 <= x && |table| == 256
    {
      table[At(x) % 256]
    }
  }

  /** The slope as the drawing loop has it: the whole step, the step with one more, and what
      the error grows by. */
  predicate SlopeOk(l: Line, base: int, sy: int, ady: int)
    requires l.Ok()
  {
    && base == Quotient(l.y1 - l.y0, l.x1 - l.x0) && ady == Abs(l.y1 - l.y0) - Abs(base) * (l.x1 - l.x0)
    && sy == if l.y1 < l.y0 then base - 1 else base + 1
  }

  lemma QuotientSign(n: int, d: nat)
    requires d > 0
    ensures Abs(n) / d >= 0 && Quotient(n, d) == (if n < 0 then -(Abs(n) / d) else Abs(n) / d)
    ensures Abs(Quotient(n, d)) == Abs(n) / d
  {
    var m := Abs(n);
    QuotientNotNegative(m, d);
  }

  lemma QuotientNotNegative(m: nat, d: nat)
    requires d > 0
    ensures m / d >= 0
  {
    var q := m / d;
    assert m == q * d + m % d;
    assert q < 0 ==> q * d + d <= 0;
  }

  lemma SlopeParts(l: Line, base: int, sy: int, ady: int, d: nat, adx: nat)
    requires l.Ok() && SlopeOk(l, base, sy, ady) && d == Abs(l.y1 - l.y0) && adx == l.x1 - l.x0
    ensures ady == d - (d / adx) * adx
    ensures base == (if l.y1 < l.y0 then -(d / adx) else d / adx)
              && sy == if l.y1 < l.y0 then -(d / adx) - 1 else d / adx + 1
  {
    QuotientSign(l.y1 - l.y0, adx);
  }

  method StepLine(l: Line, x: nat, y: int, err: int, base: int, sy: int, ady: int, ghost off: int)
    returns (y': int, err': int, ghost off': int)
    requires l.Ok() && l.x0 <= x && SlopeOk(l, base, sy, ady)
    requires OnLine(x - l.x0, Abs(l.y1 - l.y0), l.x1 - l.x0, off, err)
              && y == if l.y1 < l.y0 then l.y0 - off else l.y0 + off
    ensures OnLine(x + 1 - l.x0, Abs(l.y1 - l.y0), l.x1 - l.x0, off', err')
    ensures y' == (if l.y1 < l.y0 then l.y0 - off' else l.y0 + off') == l.At(x + 1)
  {
    ghost var d, adx := Abs(l.y1 - l.y0), l.x1 - l.x0;
    SlopeParts(l, base, sy, ady, d, adx);
    LineStep(x - l.x0, d, adx, off, err, d / adx, ady);
    err' := err + ady;
    if err' >= l.x1 - l.x0 {
      err' := err' - (l.x1 - l.x0);
      y' := y + sy;
      off' := off + d / adx + 1;
    } else {
      y' := y + base;
      off' := off + d / adx;
    }
    OnLineIsPredicted(x + 1, l.x0, l.x1, l.y0, l.y1, off', err');
  }

  /** Multiplies a stretch of the output by the line's values; clipping at `n` only cuts it short. */
  method DrawLine<V>(output: array<V>, x0: nat, y0: int, x1: nat, y1: int, n: nat, table: seq<V>, op: (V, V) -> V)
    requires x0 < x1 && n <= output.Length && |table| == 256
    modifies output
    ensures forall i :: 0 <= i < output.Length ==>
      output[i] == if x0 <= i < Min(x1, n) then op(old(output[i]), Line(x0, x1, y0, y1).Level(table, i))
        else old(output[i])
  {
    var l := Line(x0, x1, y0, y1);
    var dy, adx := y1 - y0, x1 - x0;
    var base := Quotient(dy, adx);
    var sy := if dy < 0 then base - 1 else base + 1;
    var ady := Abs(dy) - Abs(base) * adx;
    DrawSteps(output, l, base, sy, ady, Min(x1, n), table, op);
  }

  method DrawSteps<V>(output: array<V>, l: Line, base: int, sy: int, ady: int, end: nat, table: seq<V>, op: (V, V) -> V)
    requires l.Ok() && end <= output.Length && |table| == 256
    requires SlopeOk(l, base, sy, ady)
    modifies output
    ensures forall i :: 0 <= i < output.Length ==>
              output[i] == if l.x0 <= i < end then op(old(output[i]), l.Level(table, i)) else old(output[i])
  {
    var x, y, err := l.x0, l.y0, 0;
    ghost var off := 0;
    if x < end {
      StartLine(l);
      output[x] := op(output[x], table[y % 256]);
      x := x + 1;
      while x < end
        invariant l.x0 < x <= end && OnLine(x - 1 - l.x0, Abs(l.y1 - l.y0), l.x1 - l.x0, off, err)
        invariant y == if l.y1 < l.y0 then l.y0 - off else l.y0 + off
        invariant forall i :: 0 <= i < output.Length ==>
                  output[i] == if l.x0 <= i < x then op(old(output[i]), l.Level(table, i)) else old(output[i])
      {
        y, err, off := StepLine(l, x - 1, y, err, base, sy, ady, off);
        output[x] := op(output[x], table[y % 256]);
        x := x + 1;
      }
    }
  }

  lemma StartLine(l: Line)
    requires l.Ok()
    ensures OnLine(0, Abs(l.y1 - l.y0), l.x1 - l.x0, 0, 0) && l.At(l.x0) == l.y0
  {
    OnLineIsPredicted(l.x0, l.x0, l.x1, l.y0, l.y1, 0, 0);
  }

  // ----- the whole curve -----

  datatype Point = Point(x: nat, y: int)

  predicate Knots(pts: seq<Point>) {
    pts != [] && pts[0].x == 0 && forall i, j :: 0 <= i < j < |pts| ==> pts[i].x < pts[j].x
  }

  predicate LevelsOk(pts: seq<Point>) {
    forall k :: 0 <= k < |pts| ==> 0 <= pts[k].y <= 255
  }

  /** The curve through the points: straight from each to the next, level after the last. */
  function CurveAt(pts: seq<Point>, i: nat): int
    requires Knots(pts)
    decreases |pts|
  {
    var m := |pts| - 1;
    var last := pts[m];
    if last.x <= i then last.y
    else if pts[m - 1].x <= i then PredictPoint(i, pts[m - 1].x, last.x, pts[m - 1].y, last.y)
    else CurveAt(pts[..m], i)
  }

  /** Between two neighbouring points the curve is their line, so it passes through both. */
  lemma {:induction false} CurveOnSegment(pts: seq<Point>, k: nat, i: nat)
    requires Knots(pts) && k + 1 < |pts| && pts[k].x <= i < pts[k + 1].x
    ensures CurveAt(pts, i) == PredictPoint(i, pts[k].x, pts[k + 1].x, pts[k].y, pts[k + 1].y)
    decreases |pts|
  {
    var m := |pts| - 1;
    if k + 1 < m {
      assert pts[k + 1].x <= pts[m - 1].x;
      CurveOnSegment(pts[..m], k, i);
    }
  }

  /** Behind the last point the curve stays at its height. */
  lemma CurveStaysLevel(pts: seq<Point>, i: nat)
    requires Knots(pts) && pts[|pts| - 1].x <= i
    ensures CurveAt(pts, i) == pts[|pts| - 1].y
  {
  }

  lemma CurveThroughPoints(pts: seq<Point>, k: nat)
    requires Knots(pts) && k < |pts|
    ensures CurveAt(pts, pts[k].x) == pts[k].y
  {
    if k + 1 < |pts| {
      CurveOnSegment(pts, k, pts[k].x);
      PredictEnds(pts[k].x, pts[k + 1].x, pts[k].y, pts[k + 1].y);
    }
  }

  /** The curve never leaves the range of its points. */
  lemma {:induction false} CurveInRange(pts: seq<Point>, i: nat)
    requires Knots(pts) && LevelsOk(pts)
    ensures 0 <= CurveAt(pts, i) <= 255
    decreases |pts|
  {
    var m := |pts| - 1;
    if pts[m].x <= i {
    } else if pts[m - 1].x <= i {
      PredictBetween(i, pts[m - 1].x, pts[m].x, pts[m - 1].y, pts[m].y);
    } else {
      CurveInRange(pts[..m], i);
    }
  }

  lemma CurveExtends(pts: seq<Point>, p: Point, i: nat)
    requires Knots(pts) && Knots(pts + [p])
    ensures var last := pts[|pts| - 1];
      && (i < last.x ==> CurveAt(pts + [p], i) == CurveAt(pts, i))
      && (last.x <= i < p.x ==> CurveAt(pts + [p], i) == PredictPoint(i, last.x, p.x, last.y, p.y))
  {
    assert (pts + [p])[..|pts|] == pts;
    var m := |pts|;
    assert (pts + [p])[m - 1] == pts[m - 1] && (pts + [p])[m] == p && pts[m - 1].x < p.x;
  }

  /** The list of X positions, and the order that sorts them. */
  predicate SortedBy(xs: seq<nat>, order: seq<nat>) {
    && |order| == |xs| && (forall q :: 0 <= q < |order| ==> order[q] < |xs|)
    && (forall j :: 0 <= j < |xs| ==> j in order)
    && forall p, q :: 0 <= p < q < |order| ==> xs[order[p]] < xs[order[q]]
  }

  /** The points in use among the first `q`, from left to right. */
  function UsedPoints(xs: seq<nat>, order: seq<nat>, ys: seq<int>, mult: nat, q: nat): (pts: seq<Point>)
    requires SortedBy(xs, order) && |ys| == |xs| && q <= |order|
    ensures q > 0 && |pts| > 0 ==> pts[|pts| - 1].x <= xs[order[q - 1]]
    decreases q
  {
    if q == 0 then []
    else
      var before, j := UsedPoints(xs, order, ys, mult, q - 1), order[q - 1];
      if ys[j] >= 0 then before + [Point(xs[j], ys[j] * mult)] else before
  }

  /** What the caller of the drawing loop has: point 0 is at 0 and in use, levels fit the table. */
  predicate FloorOk(xs: seq<nat>, order: seq<nat>, ys: seq<int>, mult: nat) {
    && SortedBy(xs, order) && |ys| == |xs| && |xs| > 0 && order[0] == 0 && xs[0] == 0 && ys[0] >= 0
    && forall j :: 0 <= j < |ys| ==> ys[j] * mult <= 255
  }

  lemma {:induction false} UsedAreKnots(xs: seq<nat>, order: seq<nat>, ys: seq<int>, mult: nat, q: nat)
    requires FloorOk(xs, order, ys, mult) && 0 < q <= |order|
    ensures Knots(UsedPoints(xs, order, ys, mult, q)) && LevelsOk(UsedPoints(xs, order, ys, mult, q))
    decreases q
  {
    if q > 1 {
      UsedAreKnots(xs, order, ys, mult, q - 1);
      assert xs[order[q - 2]] < xs[order[q - 1]];
      LevelFits(ys[order[q - 1]], mult);
    } else {
      assert UsedPoints(xs, order, ys, mult, 0) == [];
      LevelFits(ys[0], mult);
    }
  }

  lemma LevelFits(y: int, mult: nat)
    ensures y >= 0 ==> y * mult >= 0
  {
  }

  /** Exactly the points in use are on the list. */
  lemma {:induction false} UsedPointsExact(xs: seq<nat>, order: seq<nat>, ys: seq<int>, mult: nat, q: nat, p: Point)
    requires SortedBy(xs, order) && |ys| == |xs| && q <= |order|
    ensures p in UsedPoints(xs, order, ys, mult, q)
      <==> exists r :: 0 <= r < q && ys[order[r]] >= 0 && p == Point(xs[order[r]], ys[order[r]] * mult)
    decreases q
  {
    if q > 0 { UsedPointsExact(xs, order, ys, mult, q - 1, p); }
  }

  /** Entry `i` of the target after `op` has been applied once with the curve's level. */
  function Drawn<V>(was: V, pts: seq<Point>, i: nat, table: seq<V>, op: (V, V) -> V): V
    requires Knots(pts) && |table| == 256
  {
    op(was, table[CurveAt(pts, i) % 256])
  }

  /** The entries below `limit` have been drawn, once, and no others. */
  ghost predicate DrawnTo<V(!new)>(target: seq<V>, was: seq<V>, pts: seq<Point>, limit: int, table: seq<V>,
                                   op: (V, V) -> V)
    requires Knots(pts) && |table| == 256
  {
    |target| == |was| && forall i :: 0 <= i < |target| ==>
      target[i] == if i < limit then Drawn(was[i], pts, i, table, op) else was[i]
  }

  lemma DrawnIs<V(!new)>(target: seq<V>, was: seq<V>, pts: seq<Point>, limit: nat, table: seq<V>, op: (V, V) -> V)
    requires Knots(pts) && LevelsOk(pts) && |table| == 256 && limit <= |target|
    requires DrawnTo(target, was, pts, limit, table, op)
    ensures forall i :: 0 <= i < limit ==> 0 <= CurveAt(pts, i) < 256 && target[i] == op(was[i], table[CurveAt(pts, i)])
    ensures forall i :: limit <= i < |target| ==> target[i] == was[i]
  {
    forall i | 0 <= i < limit ensures 0 <= CurveAt(pts, i) < 256 { CurveInRange(pts, i); }
  }

  /** Applies the curve to every entry of [0, n2) exactly once. */
  method DoFloor<V(!new)>(xs: seq<nat>, order: seq<nat>, ys: seq<int>, mult: nat, n2: nat, target: array<V>,
                          table: seq<V>, op: (V, V) -> V)
    requires FloorOk(xs, order, ys, mult) && n2 <= target.Length && |table| == 256
    modifies target
    ensures var pts := UsedPoints(xs, order, ys, mult, |xs|);
      && Knots(pts) && LevelsOk(pts)
      && (forall i :: 0 <= i < n2 ==>
            0 <= CurveAt(pts, i) < 256 && target[i] == op(old(target[i]), table[CurveAt(pts, i)]))
      && (forall i :: n2 <= i < target.Length ==> target[i] == old(target[i]))
  {
    ghost var was := target[..];
    var lx, ly := DrawPoints(xs, order, ys, mult, n2, target, table, op);
    ghost var pts := UsedPoints(xs, order, ys, mult, |xs|);
    DrawTail(target, lx, ly, n2, table, op, pts, was);
    DrawnIs(target[..], was, pts, n2, table, op);
  }

  // Draws up to the last point in use, which is at `lx` and `ly`.
  method DrawPoints<V(!new)>(xs: seq<nat>, order: seq<nat>, ys: seq<int>, mult: nat, n2: nat, target: array<V>,
                             table: seq<V>, op: (V, V) -> V)
    returns (lx: nat, ly: int)
    requires FloorOk(xs, order, ys, mult) && n2 <= target.Length && |table| == 256
    modifies target
    ensures var pts := UsedPoints(xs, order, ys, mult, |xs|);
      && Knots(pts) && LevelsOk(pts) && pts[|pts| - 1] == Point(lx, ly)
      && DrawnTo(target[..], old(target[..]), pts, Min(lx, n2), table, op)
  {
    lx, ly := 0, ys[0] * mult;
    ghost var was := target[..];
    FirstPoint(xs, order, ys, mult);
    for q := 1 to |xs|
      invariant Reached(target[..], was, UsedPoints(xs, order, ys, mult, q), Point(lx, ly), n2, table, op)
    {
      var j := order[q];
      ghost var pts := UsedPoints(xs, order, ys, mult, q);
      NextPoint(xs, order, ys, mult, q);
      if ys[j] >= 0 {
        DrawNext(target, Point(lx, ly), Point(xs[j], ys[j] * mult), n2, table, op, pts, was);
        lx, ly := xs[j], ys[j] * mult;
      }
    }
  }

  /** The curve has been drawn up to its last point. */
  ghost predicate Reached<V(!new)>(target: seq<V>, was: seq<V>, pts: seq<Point>, last: Point, n2: nat, table: seq<V>,
                                   op: (V, V) -> V) {
    && Knots(pts) && LevelsOk(pts) && pts[|pts| - 1] == last && |table| == 256
    && DrawnTo(target, was, pts, Min(last.x, n2), table, op)
  }

  lemma NextPoint(xs: seq<nat>, order: seq<nat>, ys: seq<int>, mult: nat, q: nat)
    requires FloorOk(xs, order, ys, mult) && 0 < q < |xs|
    ensures order[q] < |xs|
    ensures var j, pts := order[q], UsedPoints(xs, order, ys, mult, q + 1);
      && Knots(pts) && LevelsOk(pts)
      && pts == UsedPoints(xs, order, ys, mult, q) + if ys[j] >= 0 then [Point(xs[j], ys[j] * mult)] else []
  {
    UsedAreKnots(xs, order, ys, mult, q + 1);
    var pts := UsedPoints(xs, order, ys, mult, q);
    assert pts + [] == pts;
  }

  lemma FirstPoint(xs: seq<nat>, order: seq<nat>, ys: seq<int>, mult: nat)
    requires FloorOk(xs, order, ys, mult)
    ensures var pts := UsedPoints(xs, order, ys, mult, 1);
              Knots(pts) && LevelsOk(pts) && pts == [Point(0, ys[0] * mult)]
  {
    UsedAreKnots(xs, order, ys, mult, 1);
    assert UsedPoints(xs, order, ys, mult, 0) == [];
  }

  // Draws up to the next point in use.
  method DrawNext<V(!new)>(target: array<V>, last: Point, p: Point, n2: nat, table: seq<V>, op: (V, V) -> V,
                           ghost pts: seq<Point>, ghost was: seq<V>)
    requires Knots(pts) && pts[|pts| - 1] == last && Knots(pts + [p]) && n2 <= target.Length && |table| == 256
    requires DrawnTo(target[..], was, pts, Min(last.x, n2), table, op)
    modifies target
    ensures DrawnTo(target[..], was, pts + [p], Min(p.x, n2), table, op)
  {
    assert (pts + [p])[|pts| - 1] == last && (pts + [p])[|pts|] == p;
    if last.x != p.x {
      DrawLine(target, last.x, last.y, p.x, p.y, n2, table, op);
    }
    forall i | 0 <= i < p.x
      ensures CurveAt(pts + [p], i) ==
                if i < last.x then CurveAt(pts, i) else PredictPoint(i, last.x, p.x, last.y, p.y)
    {
      CurveExtends(pts, p, i);
    }
  }

  // The level stretch after the last point.
  method DrawTail<V(!new)>(target: array<V>, lx: nat, ly: int, n2: nat, table: seq<V>, op: (V, V) -> V,
                           ghost pts: seq<Point>, ghost was: seq<V>)
    requires Knots(pts) && pts[|pts| - 1] == Point(lx, ly) && LevelsOk(pts) && n2 <= target.Length && |table| == 256
    requires DrawnTo(target[..], was, pts, Min(lx, n2), table, op)
    modifies target
    ensures DrawnTo(target[..], was, pts, n2, table, op)
  {
    if lx < n2 {
      for j := lx to n2
        invariant DrawnTo(target[..], was, pts, j, table, op)
      {
        target[j] := op(target[j], table[ly]);
      }
    }
  }
}
