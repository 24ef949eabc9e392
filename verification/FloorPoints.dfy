/** The points of a type 1 floor: their order, their neighbours, and their values. */
module FloorPoints {
  import opened FloorCurve
  import opened Bits

  // ----- the number of bits of a number -----

  const LOG2_OF_4: seq<nat> := [0, 1, 2, 2, 3, 3, 3, 3, 4, 4, 4, 4, 4, 4, 4, 4]

  function Ilog(n: int): nat
    requires n < 0x8000_0000
  {
    if n < 0 then 0
    else if n < 0x4000 then
      if n < 0x10 then LOG2_OF_4[n]
      else if n < 0x200 then 5 + LOG2_OF_4[n / 0x20] else 10 + LOG2_OF_4[n / 0x400]
    else if n < 0x100_0000 then
      if n < 0x8_0000 then 15 + LOG2_OF_4[n / 0x8000] else 20 + LOG2_OF_4[n / 0x10_0000]
    else if n < 0x2000_0000 then 25 + LOG2_OF_4[n / 0x200_0000] else 30 + LOG2_OF_4[n / 0x4000_0000]
  }

  function BitLength(n: nat): nat {
    if n == 0 then 0 else 1 + BitLength(n / 2)
  }

  lemma BitLengthSmall(n: nat)
    requires n < 16
    ensures BitLength(n) == LOG2_OF_4[n]
  {
    assert BitLength(n / 16) == 0;
  }

  lemma BitLengthBy32(n: nat)
    requires n >= 16
    ensures BitLength(n) == 5 + BitLength(n / 32)
  {
    assert BitLength(n) == 2 + BitLength(n / 4) by { assert n / 2 / 2 == n / 4; }
    assert BitLength(n / 4) == 2 + BitLength(n / 16) by { assert n / 4 / 2 / 2 == n / 16; }
    assert n / 16 / 2 == n / 32;
  }

  lemma {:induction false} BitLengthBy2To10(n: nat)
    requires n >= 0x200
    ensures BitLength(n) == 10 + BitLength(n / 0x400)
  {
    BitLengthBy32(n);
    BitLengthBy32(n / 0x20);
  }

  lemma BitLengthBy2To15(n: nat)
    requires n >= 0x4000
    ensures BitLength(n) == 15 + BitLength(n / 0x8000)
  {
    BitLengthBy2To10(n);
    BitLengthBy32(n / 0x400);
    assert n / 0x400 / 32 == n / 0x8000;
  }

  lemma BitLengthBy2To20(n: nat)
    requires n >= 0x80000
    ensures BitLength(n) == 20 + BitLength(n / 0x100000)
  {
    BitLengthBy2To15(n);
    BitLengthBy32(n / 0x8000);
    assert n / 0x8000 / 32 == n / 0x100000;
  }

  lemma BitLengthBy2To25(n: nat)
    requires n >= 0x1000000
    ensures BitLength(n) == 25 + BitLength(n / 0x2000000)
  {
    BitLengthBy2To20(n);
    BitLengthBy32(n / 0x100000);
    assert n / 0x100000 / 32 == n / 0x2000000;
  }

  lemma BitLengthBy2To30(n: nat)
    requires n >= 0x20000000
    ensures BitLength(n) == 30 + BitLength(n / 0x40000000)
  {
    BitLengthBy2To25(n);
    BitLengthBy32(n / 0x2000000);
    assert n / 0x2000000 / 32 == n / 0x40000000;
  }

  /** The table look-ups give the number of bits. */
  lemma IlogIsBitLength(n: int)
    requires n < 0x8000_0000
    ensures Ilog(n) == if n < 0 then 0 else BitLength(n)
  {
    if n < 0 {
    } else if n < 0x4000 {
      IlogLow(n);
    } else {
      IlogHigh(n);
    }
  }

  lemma IlogLow(n: nat)
    requires n < 0x4000
    ensures Ilog(n) == BitLength(n)
  {
    if n < 0x10 {
      BitLengthSmall(n);
    } else if n < 0x200 {
      BitLengthBy32(n);
      BitLengthSmall(n / 0x20);
    } else {
      BitLengthBy2To10(n);
      BitLengthSmall(n / 0x400);
    }
  }

  lemma IlogHigh(n: nat)
    requires 0x4000 <= n < 0x8000_0000
    ensures Ilog(n) == BitLength(n)
  {
    if n < 0x8_0000 {
      BitLengthBy2To15(n);
      BitLengthSmall(n / 0x8000);
    } else if n < 0x100_0000 {
      BitLengthBy2To20(n);
      BitLengthSmall(n / 0x10_0000);
    } else if n < 0x2000_0000 {
      BitLengthBy2To25(n);
      BitLengthSmall(n / 0x200_0000);
    } else {
      BitLengthBy2To30(n);
      BitLengthSmall(n / 0x4000_0000);
    }
  }

  // ----- the range of values -----

  function RangeOf(mult: nat): nat
    requires 1 <= mult <= 4
  {
    [256, 128, 86, 64][mult - 1]
  }

  /** The first two values are read with one bit less than the range has.  Section 7.2.3 of
      the Vorbis I specification asks for the bits of the largest value; the two differ
      for one multiplier only. */
  lemma InitialBits(mult: nat)
    requires 1 <= mult <= 4
    ensures Ilog(RangeOf(mult)) - 1 == Ilog(RangeOf(mult) - 1) <==> mult != 3
  {
  }

  /** Whatever those bits are, the value is in the range. */
  lemma InitialInRange(mult: nat, y: nat)
    requires 1 <= mult <= 4 && Ilog(RangeOf(mult)) >= 1 && y < Pow2(Ilog(RangeOf(mult)) - 1)
    ensures y < RangeOf(mult)
  {
    assert Ilog(RangeOf(mult)) - 1 == [8, 7, 6, 6][mult - 1];
    assert Pow2(6) == 64;
    assert Pow2(7) == 128;
    assert Pow2(8) == 256;
  }

  /** The values in the range are exactly those that, times the multiplier, are an index of the
      level table. */
  lemma LevelInTable(mult: nat, y: int)
    requires 1 <= mult <= 4
    ensures y * mult <= 255 <==> y < RangeOf(mult)
  {
  }

  // ----- one value -----

  /** The value of a point from its prediction and what was coded for it. */
  function Unwrap(pred: int, val: int, range: int): int {
    var highroom, lowroom := range - pred, pred;
    var room := if highroom < lowroom then highroom * 2 else lowroom * 2;
    if val == 0 then pred
    else if val >= room then
      if highroom > lowroom then val - lowroom + pred else pred - val + highroom - 1
    else if val % 2 == 1 then pred - (val + 1) / 2
    else pred + val / 2
  }

  /** Values are stored in 16 bits. */
  function Short(n: int): int { (n + 0x8000) % 0x1_0000 - 0x8000 }

  lemma ShortSmall(n: int)
    requires 0 <= n < 0x8000
    ensures Short(n) == n
  {
  }

  /** What an encoder codes for the value `y` of a point. */
  function Wrap(pred: int, y: int, range: int): int {
    var highroom, lowroom := range - pred, pred;
    if highroom > lowroom && y >= pred + lowroom then y
    else if highroom <= lowroom && y < pred - highroom then range - 1 - y
    else if y < pred then 2 * (pred - y) - 1
    else 2 * (y - pred)
  }

  lemma Halves(n: int)
    ensures if n % 2 == 1 then 2 * ((n + 1) / 2) == n + 1 else 2 * (n / 2) == n
  {
  }

  lemma {:induction false} UnwrapThenWrap(pred: int, val: int, range: int)
    requires 0 <= pred < range && 0 <= val < range
    ensures 0 <= Unwrap(pred, val, range) < range && Wrap(pred, Unwrap(pred, val, range), range) == val
  {
    Halves(val);
  }

  lemma {:induction false} WrapThenUnwrap(pred: int, y: int, range: int)
    requires 0 <= pred < range && 0 <= y < range
    ensures 0 <= Wrap(pred, y, range) < range && Unwrap(pred, Wrap(pred, y, range), range) == y
  {
    var val := Wrap(pred, y, range);
    Halves(val);
  }

  /** For every prediction the two are inverse maps of the range onto itself. */
  lemma {:induction false} UnwrapBijective(pred: int, val: int, range: int)
    requires 0 <= pred < range && 0 <= val < range
    ensures 0 <= Unwrap(pred, val, range) < range && Wrap(pred, Unwrap(pred, val, range), range) == val
    ensures 0 <= Wrap(pred, val, range) < range && Unwrap(pred, Wrap(pred, val, range), range) == val
  {
    UnwrapThenWrap(pred, val, range);
    WrapThenUnwrap(pred, val, range);
  }

  /** What a coded value means.  Even and odd values go up and down from the prediction in
      turns, as far as there is room on both sides; the others go on along the side where there
      is still room, up to the end of the range. */
  lemma {:induction false} UnwrapMeaning(pred: int, val: int, range: int)
    requires 0 <= pred < range && 0 <= val < range
    ensures var y := Unwrap(pred, val, range);
      && (val < 2 * pred && val < 2 * (range - pred) ==>
            if val % 2 == 0 then 2 * (y - pred) == val else 2 * (pred - y) == val + 1)
      && (2 * pred <= val < 2 * (range - pred) ==> y == val)
      && (2 * (range - pred) <= val < 2 * pred ==> y == range - 1 - val)
  {
    Halves(val);
  }

  // ----- neighbours -----

  ghost predicate IsLow(xs: seq<nat>, n: nat, low: nat)
    requires n < |xs|
  {
    low < n && xs[low] < xs[n] && forall i :: 0 <= i < n && xs[i] < xs[n] ==> xs[i] <= xs[low]
  }

  ghost predicate IsHigh(xs: seq<nat>, n: nat, high: nat)
    requires n < |xs|
  {
    high < n && xs[n] < xs[high] && forall i :: 0 <= i < n && xs[n] < xs[i] ==> xs[high] <= xs[i]
  }

  /** The nearest earlier points on either side; 0 where there is none. */
  method Neighbors(xs: seq<nat>, n: nat) returns (low: nat, high: nat)
    requires n < |xs| && forall i :: 0 <= i < |xs| ==> xs[i] < 65536
    ensures if exists i :: 0 <= i < n && xs[i] < xs[n] then IsLow(xs, n, low) else low == 0
    ensures if exists i :: 0 <= i < n && xs[n] < xs[i] then IsHigh(xs, n, high) else high == 0
  {
    low, high := 0, 0;
    var lowX: int, highX: int := -1, 65536;
    for i := 0 to n
      invariant lowX == -1 ==> low == 0 && forall k :: 0 <= k < i ==> !(xs[k] < xs[n])
      invariant lowX != -1 ==>
                low < i && xs[low] == lowX < xs[n] && forall k :: 0 <= k < i && xs[k] < xs[n] ==> xs[k] <= lowX
      invariant highX == 65536 ==> high == 0 && forall k :: 0 <= k < i ==> !(xs[n] < xs[k])
      invariant highX != 65536 ==>
                high < i && xs[n] < xs[high] == highX && forall k :: 0 <= k < i && xs[n] < xs[k] ==> highX <= xs[k]
      invariant -1 <= lowX && highX <= 65536
    {
      if xs[i] > lowX && xs[i] < xs[n] { low, lowX := i, xs[i]; }
      if xs[i] < highX && xs[i] > xs[n] { high, highX := i, xs[i]; }
    }
  }

  // ----- setting a floor up -----

  datatype Setup = Setup(order: seq<nat>, neighbors: seq<(nat, nat)>) | Refused

  ghost predicate NeighborsOk(xs: seq<nat>, neighbors: seq<(nat, nat)>) {
    |neighbors| == |xs| && forall j :: 2 <= j < |xs| ==> IsLow(xs, j, neighbors[j].0) && IsHigh(xs, j, neighbors[j].1)
  }

  predicate Unequal(xs: seq<nat>) {
    forall i, j :: 0 <= i < j < |xs| ==> xs[i] != xs[j]
  }

  predicate Ordered(xs: seq<nat>, order: seq<nat>) {
    && (forall q :: 0 <= q < |order| ==> order[q] < |xs|)
    && (forall p, q :: 0 <= p < q < |order| ==> order[p] != order[q] && xs[order[p]] <= xs[order[q]])
  }

  // Sorts the points by position.
  method SortPoints(xs: seq<nat>) returns (order: seq<nat>)
    ensures |order| == |xs| && Ordered(xs, order) && forall j :: 0 <= j < |xs| ==> j in order
  {
    order := [];
    for i := 0 to |xs|
      invariant |order| == i && Ordered(xs, order) && forall j :: 0 <= j < |xs| ==> (j in order <==> j < i)
    {
      order := InsertPoint(xs, order, i);
    }
  }

  method InsertPoint(xs: seq<nat>, order: seq<nat>, i: nat) returns (r: seq<nat>)
    requires i < |xs| && Ordered(xs, order) && i !in order
    ensures Ordered(xs, r) && |r| == |order| + 1 && forall j :: j in r <==> j in order || j == i
  {
    var k := 0;
    while k < |order| && xs[order[k]] <= xs[i]
      invariant 0 <= k <= |order| && forall p :: 0 <= p < k ==> xs[order[p]] <= xs[i]
    {
      k := k + 1;
    }
    r := order[..k] + [i] + order[k..];
    assert order == order[..k] + order[k..];
    InsertedOrdered(xs, order, i, k, r);
  }

  lemma InsertedOrdered(xs: seq<nat>, order: seq<nat>, i: nat, k: nat, r: seq<nat>)
    requires i < |xs| && Ordered(xs, order) && i !in order && k <= |order| && r == order[..k] + [i] + order[k..]
    requires (forall p :: 0 <= p < k ==> xs[order[p]] <= xs[i]) && (k < |order| ==> xs[i] <= xs[order[k]])
    ensures Ordered(xs, r)
  {
    forall p, q | 0 <= p < q < |r| ensures r[p] != r[q] && xs[r[p]] <= xs[r[q]] {
      var p' := if p < k then p else p - 1;
      var q' := if q < k then q else q - 1;
      assert p != k ==> r[p] == order[p'];
      assert q != k ==> r[q] == order[q'];
    }
  }

  /** The positions as they come from the header: 0 first, then the end of the range. */
  predicate PositionsOk(xs: seq<nat>) {
    |xs| >= 2 && xs[0] == 0 < xs[1] < 65536 && forall j :: 2 <= j < |xs| ==> xs[j] < xs[1]
  }

  /** Refuses exactly the floors with a repeated position. */
  method SetUpFloor(xs: seq<nat>) returns (s: Setup)
    requires PositionsOk(xs)
    ensures s.Setup? <==> Unequal(xs)
    ensures s.Setup? ==> SortedBy(xs, s.order) && s.order[0] == 0 && NeighborsOk(xs, s.neighbors)
  {
    var order := SortPoints(xs);
    for j := 0 to |xs| - 1
      invariant forall q :: 0 <= q < j ==> xs[order[q]] < xs[order[q + 1]]
    {
      if xs[order[j]] == xs[order[j + 1]] { return Refused; }
    }
    StrictlySorted(xs, order);
    var neighbors := FindNeighbors(xs);
    s := Setup(order, neighbors);
  }

  method FindNeighbors(xs: seq<nat>) returns (neighbors: seq<(nat, nat)>)
    requires PositionsOk(xs) && Unequal(xs)
    ensures NeighborsOk(xs, neighbors)
  {
    neighbors := [(0, 0), (0, 0)];
    for j := 2 to |xs|
      invariant |neighbors| == j
      invariant forall k :: 2 <= k < j ==> IsLow(xs, k, neighbors[k].0) && IsHigh(xs, k, neighbors[k].1)
    {
      var low, high := Neighbors(xs, j);
      assert xs[0] < xs[j] < xs[1];
      neighbors := neighbors + [(low, high)];
    }
  }

  lemma {:induction false} AscendingFrom(xs: seq<nat>, order: seq<nat>, p: nat, q: nat)
    requires p < q < |order| && (forall k :: 0 <= k < |order| ==> order[k] < |xs|)
    requires forall k :: 0 <= k < |order| - 1 ==> xs[order[k]] < xs[order[k + 1]]
    ensures xs[order[p]] < xs[order[q]]
  {
    if p + 1 < q { AscendingFrom(xs, order, p, q - 1); }
    assert xs[order[q - 1]] < xs[order[q - 1 + 1]];
  }

  lemma StrictlySorted(xs: seq<nat>, order: seq<nat>)
    requires PositionsOk(xs) && |order| == |xs| && Ordered(xs, order) && forall j :: 0 <= j < |xs| ==> j in order
    requires forall k :: 0 <= k < |order| - 1 ==> xs[order[k]] < xs[order[k + 1]]
    ensures SortedBy(xs, order) && order[0] == 0 && Unequal(xs)
  {
    forall p, q | 0 <= p < q < |order| ensures xs[order[p]] < xs[order[q]] { AscendingFrom(xs, order, p, q); }
    forall i, j | 0 <= i < j < |xs| ensures xs[i] != xs[j] {
      assert i in order && j in order;
      var p :| 0 <= p < |order| && order[p] == i;
      var q :| 0 <= q < |order| && order[q] == j;
      assert p != q;
    }
    assert 0 in order;
    var p :| 0 <= p < |order| && order[p] == 0;
    assert forall q :: 0 < q < |order| ==> xs[order[0]] < xs[order[q]];
  }

  // ----- all values -----

  predicate InRange(ys: seq<int>, range: int) {
    range <= 0x8000 && forall j :: 0 <= j < |ys| ==> 0 <= ys[j] < range
  }

  ghost predicate PointsOk(xs: seq<nat>, neighbors: seq<(nat, nat)>) {
    |xs| >= 2 && NeighborsOk(xs, neighbors)
  }

  /** The value that the line between its neighbours gives point `j`. */
  ghost function Prediction(xs: seq<nat>, neighbors: seq<(nat, nat)>, ys: seq<int>, j: nat): int
    requires PointsOk(xs, neighbors) && 2 <= j < |xs| && j <= |ys|
  {
    var (low, high) := neighbors[j];
    PredictPoint(xs[j], xs[low], xs[high], ys[low], ys[high])
  }

  /** The values of the first `n` points; the first two are coded as they are. */
  ghost function Unwrapped(xs: seq<nat>, neighbors: seq<(nat, nat)>, vals: seq<int>, range: int, n: nat): (ys: seq<int>)
    requires PointsOk(xs, neighbors) && n <= |vals| == |xs|
    ensures |ys| == n
    decreases n
  {
    if n <= 2 then vals[..n]
    else
      var before := Unwrapped(xs, neighbors, vals, range, n - 1);
      before + [Short(Unwrap(Prediction(xs, neighbors, before, n - 1), vals[n - 1], range))]
  }

  /** What an encoder codes for the values `ys`. */
  ghost function Wrapped(xs: seq<nat>, neighbors: seq<(nat, nat)>, ys: seq<int>, range: int, n: nat): (vals: seq<int>)
    requires PointsOk(xs, neighbors) && n <= |ys| == |xs|
    ensures |vals| == n
    decreases n
  {
    if n <= 2 then ys[..n]
    else
      var last := Wrap(Prediction(xs, neighbors, ys[..n - 1], n - 1), ys[n - 1], range);
      Wrapped(xs, neighbors, ys, range, n - 1) + [last]
  }

  /** In a floor without repeated positions the neighbours are the nearest earlier points. */
  lemma NearestIsNeighbor(xs: seq<nat>, neighbors: seq<(nat, nat)>, j: nat, l: nat, h: nat)
    requires PointsOk(xs, neighbors) && Unequal(xs) && 2 <= j < |xs|
    ensures IsLow(xs, j, l) <==> l == neighbors[j].0
    ensures IsHigh(xs, j, h) <==> h == neighbors[j].1
  {
    var (low, high) := neighbors[j];
    assert IsLow(xs, j, low) && IsHigh(xs, j, high);
    if IsLow(xs, j, l) { assert xs[l] == xs[low]; }
    if IsHigh(xs, j, h) { assert xs[h] == xs[high]; }
  }

  /** Every point is coded from the height, at its position, of the line through the nearest
      earlier points on its left and its right; a point that is coded 0 lies on that line. */
  lemma {:induction false} CodedFromLine(xs: seq<nat>, neighbors: seq<(nat, nat)>, vals: seq<int>, range: int,
                                         j: nat, l: nat, h: nat, pred: int)
    requires PointsOk(xs, neighbors) && Unequal(xs) && |vals| == |xs| && InRange(vals, range)
    requires 2 <= j < |xs| && IsLow(xs, j, l) && IsHigh(xs, j, h)
    requires var ys := Unwrapped(xs, neighbors, vals, range, |xs|); RoundsLine(xs[j], xs[l], xs[h], ys[l], ys[h], pred)
    ensures 0 <= pred < range && Unwrapped(xs, neighbors, vals, range, |xs|)[j] == Unwrap(pred, vals[j], range)
    ensures vals[j] == 0 ==> Unwrapped(xs, neighbors, vals, range, |xs|)[j] == pred
  {
    var ys := Unwrapped(xs, neighbors, vals, range, |xs|);
    NearestIsNeighbor(xs, neighbors, j, l, h);
    UnwrappedInRange(xs, neighbors, vals, range, |xs|);
    UnwrappedEntry(xs, neighbors, vals, range, j);
    PredictionInRange(xs, neighbors, ys[..j], range, j);
    PredictRounds(xs[j], xs[l], xs[h], ys[l], ys[h], pred);
    UnwrapBijective(pred, vals[j], range);
    ShortSmall(Unwrap(pred, vals[j], range));
  }

  lemma PredictionInRange(xs: seq<nat>, neighbors: seq<(nat, nat)>, ys: seq<int>, range: int, j: nat)
    requires PointsOk(xs, neighbors) && 2 <= j < |xs| && j <= |ys| && InRange(ys, range)
    ensures 0 <= Prediction(xs, neighbors, ys, j) < range
  {
    var (low, high) := neighbors[j];
    PredictBetween(xs[j], xs[low], xs[high], ys[low], ys[high]);
  }

  /** Every value stays in the range. */
  lemma {:induction false} UnwrappedInRange(xs: seq<nat>, neighbors: seq<(nat, nat)>, vals: seq<int>,
                                            range: int, n: nat)
    requires PointsOk(xs, neighbors) && n <= |vals| == |xs| && InRange(vals, range)
    ensures InRange(Unwrapped(xs, neighbors, vals, range, n), range)
    decreases n
  {
    if n > 2 {
      UnwrappedInRange(xs, neighbors, vals, range, n - 1);
      var before := Unwrapped(xs, neighbors, vals, range, n - 1);
      PredictionInRange(xs, neighbors, before, range, n - 1);
      UnwrapBijective(Prediction(xs, neighbors, before, n - 1), vals[n - 1], range);
      ShortSmall(Unwrap(Prediction(xs, neighbors, before, n - 1), vals[n - 1], range));
    }
  }

  lemma UnwrappedStep(xs: seq<nat>, neighbors: seq<(nat, nat)>, vals: seq<int>, range: int, n: nat)
    requires PointsOk(xs, neighbors) && 0 < n <= |vals| == |xs|
    ensures Unwrapped(xs, neighbors, vals, range, n)[..n - 1] == Unwrapped(xs, neighbors, vals, range, n - 1)
  {
    var before, now := Unwrapped(xs, neighbors, vals, range, n - 1), Unwrapped(xs, neighbors, vals, range, n);
    if n > 2 {
      assert now == before + [now[n - 1]];
    } else {
      assert now == vals[..n] && before == vals[..n - 1];
    }
  }

  lemma {:induction false} UnwrappedPrefix(xs: seq<nat>, neighbors: seq<(nat, nat)>, vals: seq<int>, range: int,
                                           m: nat, n: nat)
    requires PointsOk(xs, neighbors) && m <= n <= |vals| == |xs|
    ensures Unwrapped(xs, neighbors, vals, range, n)[..m] == Unwrapped(xs, neighbors, vals, range, m)
    decreases n
  {
    var now := Unwrapped(xs, neighbors, vals, range, n);
    if m < n {
      UnwrappedPrefix(xs, neighbors, vals, range, m, n - 1);
      UnwrappedStep(xs, neighbors, vals, range, n);
      assert now[..m] == now[..n - 1][..m];
    } else {
      assert now[..m] == now;
    }
  }

  lemma UnwrappedEntry(xs: seq<nat>, neighbors: seq<(nat, nat)>, vals: seq<int>, range: int, j: nat)
    requires PointsOk(xs, neighbors) && j < |vals| == |xs|
    ensures var ys := Unwrapped(xs, neighbors, vals, range, |xs|);
      ys[j] == if j < 2 then vals[j] else Short(Unwrap(Prediction(xs, neighbors, ys[..j], j), vals[j], range))
  {
    UnwrappedPrefix(xs, neighbors, vals, range, j, |xs|);
    UnwrappedPrefix(xs, neighbors, vals, range, j + 1, |xs|);
    assert Unwrapped(xs, neighbors, vals, range, |xs|)[..j + 1][j] == Unwrapped(xs, neighbors, vals, range, j + 1)[j];
  }

  lemma {:induction false} WrappedEntry(xs: seq<nat>, neighbors: seq<(nat, nat)>, ys: seq<int>, range: int,
                                        j: nat, n: nat)
    requires PointsOk(xs, neighbors) && j < n <= |ys| == |xs|
    ensures Wrapped(xs, neighbors, ys, range, n)[j] == if j < 2 then ys[j]
              else Wrap(Prediction(xs, neighbors, ys[..j], j), ys[j], range)
    decreases n
  {
    if j < n - 1 && n > 2 { WrappedEntry(xs, neighbors, ys, range, j, n - 1); }
  }

  lemma ValueBack(xs: seq<nat>, neighbors: seq<(nat, nat)>, vals: seq<int>, range: int, j: nat)
    requires PointsOk(xs, neighbors) && j < |vals| == |xs| && InRange(vals, range)
    ensures Wrapped(xs, neighbors, Unwrapped(xs, neighbors, vals, range, |xs|), range, |xs|)[j] == vals[j]
  {
    var ys := Unwrapped(xs, neighbors, vals, range, |xs|);
    UnwrappedEntry(xs, neighbors, vals, range, j);
    WrappedEntry(xs, neighbors, ys, range, j, |xs|);
    if j >= 2 {
      UnwrappedInRange(xs, neighbors, vals, range, |xs|);
      PredictionInRange(xs, neighbors, ys[..j], range, j);
      UnwrapBijective(Prediction(xs, neighbors, ys[..j], j), vals[j], range);
      ShortSmall(Unwrap(Prediction(xs, neighbors, ys[..j], j), vals[j], range));
    }
  }

  /** Coding the values of a floor gives back what it was read from. */
  lemma ValuesRoundTrip(xs: seq<nat>, neighbors: seq<(nat, nat)>, vals: seq<int>, range: int)
    requires PointsOk(xs, neighbors) && |vals| == |xs| && InRange(vals, range)
    ensures Wrapped(xs, neighbors, Unwrapped(xs, neighbors, vals, range, |xs|), range, |xs|) == vals
  {
    forall j | 0 <= j < |xs|
      ensures Wrapped(xs, neighbors, Unwrapped(xs, neighbors, vals, range, |xs|), range, |xs|)[j] == vals[j]
    {
      ValueBack(xs, neighbors, vals, range, j);
    }
  }

  /** The value `val` codes point `j` of the floor `ys`. */
  ghost predicate Codes(xs: seq<nat>, neighbors: seq<(nat, nat)>, ys: seq<int>, range: int, j: nat, val: int)
    requires PointsOk(xs, neighbors) && j < |ys| == |xs|
  {
    0 <= val < range && if j < 2 then val == ys[j]
      else Unwrap(Prediction(xs, neighbors, ys[..j], j), val, range) == ys[j]
  }

  lemma WrappedBack(xs: seq<nat>, neighbors: seq<(nat, nat)>, ys: seq<int>, range: int, j: nat)
    requires PointsOk(xs, neighbors) && j < |ys| == |xs| && InRange(ys, range)
    ensures Codes(xs, neighbors, ys, range, j, Wrapped(xs, neighbors, ys, range, |xs|)[j])
  {
    WrappedEntry(xs, neighbors, ys, range, j, |xs|);
    if j >= 2 {
      PredictionInRange(xs, neighbors, ys[..j], range, j);
      UnwrapBijective(Prediction(xs, neighbors, ys[..j], j), ys[j], range);
    }
  }

  lemma {:induction false} FloorBack(xs: seq<nat>, neighbors: seq<(nat, nat)>, ys: seq<int>, vals: seq<int>,
                                     range: int, n: nat)
    requires PointsOk(xs, neighbors) && n <= |ys| == |vals| == |xs| && InRange(ys, range)
    requires forall j :: 0 <= j < |xs| ==> Codes(xs, neighbors, ys, range, j, vals[j])
    ensures Unwrapped(xs, neighbors, vals, range, n) == ys[..n]
    decreases n
  {
    if n > 2 {
      FloorBack(xs, neighbors, ys, vals, range, n - 1);
      assert Codes(xs, neighbors, ys, range, n - 1, vals[n - 1]);
      ShortSmall(ys[n - 1]);
      Snoc(ys, n - 1);
    } else {
      assert forall j :: 0 <= j < n ==> Codes(xs, neighbors, ys, range, j, vals[j]);
    }
  }

  lemma Snoc(ys: seq<int>, n: nat)
    requires n < |ys|
    ensures ys[..n + 1] == ys[..n] + [ys[n]]
  {
  }

  /** Every floor in range has a coding, and reading it gives the floor back. */
  lemma FloorRoundTrip(xs: seq<nat>, neighbors: seq<(nat, nat)>, ys: seq<int>, range: int)
    requires PointsOk(xs, neighbors) && |ys| == |xs| && InRange(ys, range)
    ensures var vals := Wrapped(xs, neighbors, ys, range, |xs|);
      InRange(vals, range) && Unwrapped(xs, neighbors, vals, range, |xs|) == ys
  {
    var vals := Wrapped(xs, neighbors, ys, range, |xs|);
    forall j | 0 <= j < |xs| ensures Codes(xs, neighbors, ys, range, j, vals[j]) {
      WrappedBack(xs, neighbors, ys, range, j);
    }
    FloorBack(xs, neighbors, ys, vals, range, |xs|);
    assert ys[..|xs|] == ys;
  }

  // ----- points in use -----

  /** Point `j` is in use: one of the first two, coded with something, or next to one that is. */
  ghost predicate InUse(neighbors: seq<(nat, nat)>, vals: seq<int>, n: nat, j: nat)
    requires n <= |vals| == |neighbors|
  {
    || j < 2 || (j < n && vals[j] != 0)
    || exists k :: 2 <= k < n && vals[k] != 0 && (neighbors[k].0 == j || neighbors[k].1 == j)
  }

  ghost function Final(xs: seq<nat>, neighbors: seq<(nat, nat)>, vals: seq<int>, range: int): (ys: seq<int>)
    requires PointsOk(xs, neighbors) && |vals| == |xs|
    ensures |ys| == |xs|
  {
    seq(|xs|, j requires 0 <= j < |xs| =>
      if InUse(neighbors, vals, |xs|, j) then Unwrapped(xs, neighbors, vals, range, |xs|)[j] else -1)
  }

  /** A point is drawn exactly when it is one of the first two, is coded with something, or is a
      nearest earlier point of one that is. */
  lemma {:induction false} DrawnPoints(xs: seq<nat>, neighbors: seq<(nat, nat)>, vals: seq<int>, range: int, i: nat)
    requires PointsOk(xs, neighbors) && Unequal(xs) && |vals| == |xs| && InRange(vals, range) && i < |xs|
    ensures Final(xs, neighbors, vals, range)[i] >= 0 <==>
              || i < 2 || vals[i] != 0
              || exists k :: 2 <= k < |xs| && vals[k] != 0 && (IsLow(xs, k, i) || IsHigh(xs, k, i))
  {
    UnwrappedInRange(xs, neighbors, vals, range, |xs|);
    forall k | 2 <= k < |xs|
      ensures IsLow(xs, k, i) <==> i == neighbors[k].0
      ensures IsHigh(xs, k, i) <==> i == neighbors[k].1
    {
      NearestIsNeighbor(xs, neighbors, k, i, i);
    }
  }

  /** The mark for unused points cannot be mistaken for a value, and the result can be drawn. */
  lemma FinalDraws(xs: seq<nat>, order: seq<nat>, neighbors: seq<(nat, nat)>, vals: seq<int>, mult: nat)
    requires PointsOk(xs, neighbors) && |vals| == |xs| && 1 <= mult <= 4 && InRange(vals, RangeOf(mult))
    requires SortedBy(xs, order) && order[0] == 0 && xs[0] == 0
    ensures var ys := Final(xs, neighbors, vals, RangeOf(mult));
      && FloorOk(xs, order, ys, mult)
      && forall j :: 0 <= j < |xs| ==> (ys[j] >= 0 <==> InUse(neighbors, vals, |xs|, j))
  {
    var range := RangeOf(mult);
    UnwrappedInRange(xs, neighbors, vals, range, |xs|);
    var ys := Final(xs, neighbors, vals, range);
    forall j | 0 <= j < |xs| ensures ys[j] * mult <= 255 { LevelInTable(mult, ys[j]); }
  }

  /** Turns the coded values into the final ones, in place. */
  method UnwrapFloor(finalY: array<int>, xs: seq<nat>, neighbors: seq<(nat, nat)>, range: int)
    requires PointsOk(xs, neighbors) && |xs| <= finalY.Length
    modifies finalY
    ensures finalY[..|xs|] == Final(xs, neighbors, old(finalY[..|xs|]), range)
    ensures finalY[|xs|..] == old(finalY[|xs|..])
  {
    ghost var vals := finalY[..|xs|];
    var step2 := UnwrapAll(finalY, xs, neighbors, range, vals);
    MarkUnused(finalY, |xs|, step2);
  }

  method UnwrapAll(finalY: array<int>, xs: seq<nat>, neighbors: seq<(nat, nat)>, range: int, ghost vals: seq<int>)
    returns (step2: seq<bool>)
    requires PointsOk(xs, neighbors) && |xs| <= finalY.Length && vals == finalY[..|xs|]
    modifies finalY
    ensures finalY[..|xs|] == Unwrapped(xs, neighbors, vals, range, |xs|)
    ensures forall i :: |xs| <= i < finalY.Length ==> finalY[i] == old(finalY[i])
    ensures |step2| == |xs| && forall i :: 0 <= i < |xs| ==> (step2[i] <==> InUse(neighbors, vals, |xs|, i))
  {
    step2 := seq(|xs|, j => j < 2);
    for j := 2 to |xs|
      invariant |step2| == |xs| && forall i :: 0 <= i < j ==> (step2[i] <==> InUse(neighbors, vals, j, i))
      invariant finalY[..j] == Unwrapped(xs, neighbors, vals, range, j)
      invariant forall i :: j <= i < finalY.Length ==> finalY[i] == old(finalY[i])
    {
      step2 := UnwrapOne(finalY, xs, neighbors, range, j, step2, vals);
    }
  }

  method MarkUnused(finalY: array<int>, values: nat, step2: seq<bool>)
    requires values == |step2| <= finalY.Length
    modifies finalY
    ensures forall i :: 0 <= i < finalY.Length ==> finalY[i] == if i < values && !step2[i] then -1 else old(finalY[i])
  {
    for j := 0 to values
      invariant forall i :: 0 <= i < finalY.Length ==> finalY[i] == if i < j && !step2[i] then -1 else old(finalY[i])
    {
      if !step2[j] { finalY[j] := -1; }
    }
  }

  // One turn of the loop: point `j` from its neighbours.
  method UnwrapOne(finalY: array<int>, xs: seq<nat>, neighbors: seq<(nat, nat)>, range: int, j: nat, flags: seq<bool>,
                   ghost vals: seq<int>)
    returns (step2: seq<bool>)
    requires PointsOk(xs, neighbors) && 2 <= j < |xs| == |vals| == |flags| && |xs| <= finalY.Length
    requires finalY[..j] == Unwrapped(xs, neighbors, vals, range, j) && finalY[j] == vals[j]
    requires forall i :: 0 <= i < j ==> (flags[i] <==> InUse(neighbors, vals, j, i))
    modifies finalY
    ensures finalY[..j + 1] == Unwrapped(xs, neighbors, vals, range, j + 1)
    ensures forall i :: j < i < finalY.Length ==> finalY[i] == old(finalY[i])
    ensures |step2| == |flags| && forall i :: 0 <= i <= j ==> (step2[i] <==> InUse(neighbors, vals, j + 1, i))
  {
    var (low, high) := neighbors[j];
    var pred := PredictPoint(xs[j], xs[low], xs[high], finalY[low], finalY[high]);
    assert finalY[low] == finalY[..j][low] && finalY[high] == finalY[..j][high];
    assert pred == Prediction(xs, neighbors, finalY[..j], j);
    var val := finalY[j];
    var highroom, lowroom := range - pred, pred;
    var room := if highroom < lowroom then highroom * 2 else lowroom * 2;
    step2 := flags;
    var y;
    if val != 0 {
      step2 := step2[low := true][high := true][j := true];
      if val >= room {
        if highroom > lowroom { y := val - lowroom + pred; } else { y := pred - val + highroom - 1; }
      } else {
        if val % 2 == 1 { y := pred - (val + 1) / 2; } else { y := pred + val / 2; }
      }
    } else {
      step2 := step2[j := false];
      y := pred;
    }
    assert y == Unwrap(pred, val, range);
    ghost var before := finalY[..j];
    finalY[j] := Short(y);
    assert finalY[..j + 1] == before + [Short(y)];
    FlagsNext(neighbors, vals, j, flags, step2);
  }

  lemma FlagsNext(neighbors: seq<(nat, nat)>, vals: seq<int>, j: nat, flags: seq<bool>, step2: seq<bool>)
    requires 2 <= j < |vals| == |neighbors| == |flags| == |step2| && neighbors[j].0 < j && neighbors[j].1 < j
    requires forall i :: 0 <= i < j ==> (flags[i] <==> InUse(neighbors, vals, j, i))
    requires forall k :: 2 <= k <= j ==> neighbors[k].0 < k && neighbors[k].1 < k
    requires step2 == if vals[j] != 0 then flags[neighbors[j].0 := true][neighbors[j].1 := true][j := true]
              else flags[j := false]
    ensures forall i :: 0 <= i <= j ==> (step2[i] <==> InUse(neighbors, vals, j + 1, i))
  {
    forall i | 0 <= i <= j ensures step2[i] <==> InUse(neighbors, vals, j + 1, i) {
      if i < j {
        assert InUse(neighbors, vals, j + 1, i) <==>
          InUse(neighbors, vals, j, i) || (vals[j] != 0 && (neighbors[j].0 == i || neighbors[j].1 == i));
      }
    }
  }
}
