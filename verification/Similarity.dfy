/** Similarity of two strings by edit distance. */
module Similarity {
  import opened Numbers

  // ----- edit scripts -----

  datatype Edit = Keep(c: char) | Replace(c: char, d: char) | Delete(c: char) | Insert(d: char)

  /** A way to turn one string into another, from left to right. */
  datatype Script = Start | Then(before: Script, edit: Edit)

  function Source(s: Script): string {
    match s
    case Start => ""
    case Then(b, Keep(c)) => Source(b) + [c]
    case Then(b, Replace(c, _)) => Source(b) + [c]
    case Then(b, Delete(c)) => Source(b) + [c]
    case Then(b, Insert(_)) => Source(b)
  }

  function Target(s: Script): string {
    match s
    case Start => ""
    case Then(b, Keep(c)) => Target(b) + [c]
    case Then(b, Replace(_, d)) => Target(b) + [d]
    case Then(b, Delete(_)) => Target(b)
    case Then(b, Insert(d)) => Target(b) + [d]
  }

  function Cost(s: Script): nat {
    match s
    case Start => 0
    case Then(b, e) => Cost(b) + if e.Keep? then 0 else 1
  }

  // ----- the distance -----

  /** The recurrence of the table, on the first `i` and `j` characters. */
  function Distance(s: string, t: string, i: nat, j: nat): nat
    requires i <= |s| && j <= |t|
  {
    if i == 0 then j
    else if j == 0 then i
    else Cell(Distance(s, t, i, j - 1), Distance(s, t, i - 1, j), Distance(s, t, i - 1, j - 1), s[i - 1] == t[j - 1])
  }

  /** One entry of the table from its neighbours. */
  function Cell(left: nat, above: nat, diagonal: nat, same: bool): nat {
    Min(Min(1 + left, 1 + above), diagonal + if same then 0 else 1)
  }

  function EditDistance(s: string, t: string): nat {
    Distance(s, t, |s|, |t|)
  }

  lemma {:induction false} DistanceOfPrefixes(s: string, t: string, s': string, t': string, i: nat, j: nat)
    requires i <= |s| && j <= |t| && i <= |s'| && j <= |t'| && s[..i] == s'[..i] && t[..j] == t'[..j]
    ensures Distance(s, t, i, j) == Distance(s', t', i, j)
    decreases i + j
  {
    if i > 0 && j > 0 {
      assert s[i - 1] == s[..i][i - 1] == s'[i - 1] && t[j - 1] == t[..j][j - 1] == t'[j - 1];
      assert s[..i - 1] == s[..i][..i - 1] == s'[..i - 1] && t[..j - 1] == t[..j][..j - 1] == t'[..j - 1];
      DistanceOfPrefixes(s, t, s', t', i, j - 1);
      DistanceOfPrefixes(s, t, s', t', i - 1, j);
      DistanceOfPrefixes(s, t, s', t', i - 1, j - 1);
    }
  }

  lemma Shorter(s: string, t: string, a: string, b: string)
    requires |a| <= |s| && |b| <= |t| && s[..|a|] == a && t[..|b|] == b
    ensures Distance(s, t, |a|, |b|) == EditDistance(a, b)
  {
    DistanceOfPrefixes(s, t, a, b, |a|, |b|);
  }

  /** No script is cheaper than the distance. */
  lemma {:induction false} NoScriptIsCheaper(x: Script)
    ensures EditDistance(Source(x), Target(x)) <= Cost(x)
  {
    match x
    case Start =>
    case Then(b, e) =>
      NoScriptIsCheaper(b);
      var s, t, a, d := Source(x), Target(x), Source(b), Target(b);
      assert s[..|a|] == a && t[..|d|] == d;
      Shorter(s, t, a, d);
  }

  /** Some script costs no more than the distance. */
  lemma {:induction false} SomeScriptIsThatCheap(s: string, t: string, i: nat, j: nat) returns (x: Script)
    requires i <= |s| && j <= |t|
    ensures Source(x) == s[..i] && Target(x) == t[..j] && Cost(x) == Distance(s, t, i, j)
    decreases i + j
  {
    if i == 0 && j == 0 {
      x := Start;
    } else if i == 0 {
      var b := SomeScriptIsThatCheap(s, t, i, j - 1);
      x := ScriptTo(s, t, i, j, 0, 1, b, Insert(t[j - 1]));
    } else if j == 0 {
      var b := SomeScriptIsThatCheap(s, t, i - 1, j);
      x := ScriptTo(s, t, i, j, 1, 0, b, Delete(s[i - 1]));
    } else {
      var left := SomeScriptIsThatCheap(s, t, i, j - 1);
      var above := SomeScriptIsThatCheap(s, t, i - 1, j);
      var diagonal := SomeScriptIsThatCheap(s, t, i - 1, j - 1);
      x := Cheapest(s, t, i, j, left, above, diagonal);
    }
  }

  // The cheapest of the three scripts that end with one more edit.
  lemma {:induction false} Cheapest(s: string, t: string, i: nat, j: nat, left: Script, above: Script,
                                    diagonal: Script) returns (x: Script)
    requires 0 < i <= |s| && 0 < j <= |t|
    requires Source(left) == s[..i] && Target(left) == t[..j - 1]
    requires Source(above) == s[..i - 1] && Target(above) == t[..j]
    requires Source(diagonal) == s[..i - 1] && Target(diagonal) == t[..j - 1]
    ensures Source(x) == s[..i] && Target(x) == t[..j]
    ensures Cost(x) == Cell(Cost(left), Cost(above), Cost(diagonal), s[i - 1] == t[j - 1])
  {
    var x1 := ScriptTo(s, t, i, j, 0, 1, left, Insert(t[j - 1]));
    var x2 := ScriptTo(s, t, i, j, 1, 0, above, Delete(s[i - 1]));
    var last := if s[i - 1] == t[j - 1] then Keep(s[i - 1]) else Replace(s[i - 1], t[j - 1]);
    var x3 := ScriptTo(s, t, i, j, 1, 1, diagonal, last);
    x := if Cost(x1) <= Cost(x2) && Cost(x1) <= Cost(x3) then x1 else if Cost(x2) <= Cost(x3) then x2 else x3;
  }

  // Extends a script by an edit that takes `di` characters of the one string and `dj` of the other.
  lemma ScriptTo(s: string, t: string, i: nat, j: nat, di: nat, dj: nat, b: Script, e: Edit) returns (x: Script)
    requires di <= i <= |s| && dj <= j <= |t| && di <= 1 && dj <= 1
    requires Source(b) == s[..i - di] && Target(b) == t[..j - dj]
    requires e.Insert? <==> di == 0
    requires e.Delete? <==> dj == 0
    requires (di == 1 ==> e.c == s[i - 1]) && (e.Insert? || e.Replace? ==> e.d == t[j - 1])
    requires (e.Keep? ==> e.c == t[j - 1])
    ensures Source(x) == s[..i] && Target(x) == t[..j] && Cost(x) == Cost(b) + if e.Keep? then 0 else 1
  {
    x := Then(b, e);
    assert di == 1 ==> s[..i] == s[..i - 1] + [s[i - 1]];
    assert dj == 1 ==> t[..j] == t[..j - 1] + [t[j - 1]];
  }

  /** The distance is the least cost of all scripts. */
  ghost predicate IsLeastCost(s: string, t: string, n: nat) {
    && (forall x :: Source(x) == s && Target(x) == t ==> n <= Cost(x))
    && (exists x :: Source(x) == s && Target(x) == t && Cost(x) == n)
  }

  lemma DistanceIsLeastCost(s: string, t: string)
    ensures IsLeastCost(s, t, EditDistance(s, t))
  {
    forall x | Source(x) == s && Target(x) == t ensures EditDistance(s, t) <= Cost(x) { NoScriptIsCheaper(x); }
    var x := SomeScriptIsThatCheap(s, t, |s|, |t|);
    assert s[..|s|] == s && t[..|t|] == t;
  }

  /** A script the other way round. */
  function Reversed(x: Script): (r: Script)
    ensures Source(r) == Target(x) && Target(r) == Source(x) && Cost(r) == Cost(x)
  {
    match x
    case Start => Start
    case Then(b, Keep(c)) => Then(Reversed(b), Keep(c))
    case Then(b, Replace(c, d)) => Then(Reversed(b), Replace(d, c))
    case Then(b, Delete(c)) => Then(Reversed(b), Insert(c))
    case Then(b, Insert(d)) => Then(Reversed(b), Delete(d))
  }

  lemma DistanceSymmetric(s: string, t: string)
    ensures EditDistance(s, t) == EditDistance(t, s)
  {
    ReversedIsNoCheaper(s, t);
    ReversedIsNoCheaper(t, s);
  }

  lemma ReversedIsNoCheaper(s: string, t: string)
    ensures EditDistance(t, s) <= EditDistance(s, t)
  {
    var x := SomeScriptIsThatCheap(s, t, |s|, |t|);
    assert s[..|s|] == s && t[..|t|] == t;
    NoScriptIsCheaper(Reversed(x));
  }

  lemma {:induction false} DistanceAtMostLonger(s: string, t: string, i: nat, j: nat)
    requires i <= |s| && j <= |t|
    ensures Distance(s, t, i, j) <= Max(i, j)
    decreases i + j
  {
    if i > 0 && j > 0 { DistanceAtMostLonger(s, t, i - 1, j - 1); }
  }

  lemma {:induction false} ZeroMeansEqual(s: string, t: string, i: nat, j: nat)
    requires i <= |s| && j <= |t|
    ensures Distance(s, t, i, j) == 0 <==> s[..i] == t[..j]
    decreases i + j
  {
    if i > 0 && j > 0 {
      ZeroMeansEqual(s, t, i - 1, j - 1);
      assert s[..i] == s[..i - 1] + [s[i - 1]] && t[..j] == t[..j - 1] + [t[j - 1]];
    }
  }

  /** The last edits of two scripts that meet at one character, made into one. */
  function Meet(x: Edit, y: Edit): Edit
    requires !x.Delete? && !y.Insert? && !(x.Insert? && y.Delete?)
  {
    match x
    case Keep(_) => y
    case Replace(c, _) => (match y case Keep(_) => x case Replace(_, e) => Replace(c, e) case Delete(_) => Delete(c))
    case Insert(_) => (match y case Keep(_) => x case Replace(_, e) => Insert(e))
  }

  /** One script for two, at no more than the cost of both. */
  lemma {:induction false} Compose(x: Script, y: Script) returns (z: Script)
    requires Target(x) == Source(y)
    ensures Source(z) == Source(x) && Target(z) == Target(y) && Cost(z) <= Cost(x) + Cost(y)
    decreases x, y
  {
    if y.Then? && y.edit.Insert? {
      z := Compose(x, y.before);
      z := Then(z, y.edit);
    } else if x.Then? && x.edit.Delete? {
      z := Compose(x.before, y);
      z := Then(z, x.edit);
    } else if x.Then? && y.Then? {
      assert Target(x)[..|Target(x)| - 1] == Target(x.before) && Source(y)[..|Source(y)| - 1] == Source(y.before);
      z := Compose(x.before, y.before);
      if !(x.edit.Insert? && y.edit.Delete?) { z := ComposeLast(x, y, z); }
    } else {
      z := Start;
    }
  }

  lemma ComposeLast(x: Script, y: Script, b: Script) returns (z: Script)
    requires x.Then? && y.Then? && !x.edit.Delete? && !y.edit.Insert? && !(x.edit.Insert? && y.edit.Delete?)
    requires Target(x)[|Target(x)| - 1] == Source(y)[|Source(y)| - 1]
    requires Source(b) == Source(x.before) && Target(b) == Target(y.before)
    requires Cost(b) <= Cost(x.before) + Cost(y.before)
    ensures Source(z) == Source(x) && Target(z) == Target(y) && Cost(z) <= Cost(x) + Cost(y)
  {
    z := Then(b, Meet(x.edit, y.edit));
  }

  lemma TriangleInequality(s: string, t: string, u: string)
    ensures EditDistance(s, u) <= EditDistance(s, t) + EditDistance(t, u)
  {
    var x := SomeScriptIsThatCheap(s, t, |s|, |t|);
    var y := SomeScriptIsThatCheap(t, u, |t|, |u|);
    assert s[..|s|] == s && t[..|t|] == t && u[..|u|] == u;
    var z := Compose(x, y);
    NoScriptIsCheaper(z);
  }

  // ----- the score -----

  datatype Score = NotANumber | Score(value: real)

  function ScoreOf(s: string, t: string, distance: nat): Score {
    if s == "" && t == "" then NotANumber else Score(1.0 - distance as real / Max(|s|, |t|) as real)
  }

  /** Symmetric, between 0 and 1, and 1 for equal strings only. */
  lemma ScoreProperties(s: string, t: string)
    ensures var score := ScoreOf(s, t, EditDistance(s, t));
      && score == ScoreOf(t, s, EditDistance(t, s))
      && (score.NotANumber? <==> s == "" && t == "")
      && (score.Score? ==> 0.0 <= score.value <= 1.0 && (score.value == 1.0 <==> s == t))
  {
    DistanceSymmetric(s, t);
    DistanceAtMostLonger(s, t, |s|, |t|);
    ZeroMeansEqual(s, t, |s|, |t|);
    assert s[..|s|] == s && t[..|t|] == t;
    if s != "" || t != "" { RatioBounds(EditDistance(s, t), Max(|s|, |t|)); }
  }

  /** What the score falls short of 1 is the distance as a part of the longer length; it is 0
      exactly when nothing is kept. */
  lemma ScoreOfDistance(s: string, t: string, distance: nat)
    requires s != "" || t != ""
    ensures var score := ScoreOf(s, t, distance); var longer := if |s| < |t| then |t| else |s|;
      && score.Score? && (1.0 - score.value) * longer as real == distance as real
      && (score.value == 0.0 <==> distance == longer)
  {
    var longer := if |s| < |t| then |t| else |s|;
    RatioOf(distance, longer);
    assert longer == Max(|s|, |t|);
  }

  lemma RatioOf(d: nat, m: nat)
    requires m > 0
    ensures (1.0 - (1.0 - d as real / m as real)) * m as real == d as real
    ensures 1.0 - d as real / m as real == 0.0 <==> d == m
  {
    var r := m as real;
    var x := d as real / r;
    assert x * r == d as real;
    assert 1.0 - (1.0 - x) == x;
    assert d == m ==> x == 1.0;
  }

  lemma RatioBounds(d: nat, m: nat)
    requires d <= m && m > 0
    ensures 0.0 <= d as real / m as real <= 1.0 && (d as real / m as real == 0.0 <==> d == 0)
  {
  }

  /** Two rows of the table, the second pass over the first one included. */
  method Similarity(s0: string, s1: string) returns (score: Score)
    ensures score == ScoreOf(s0, s1, EditDistance(s0, s1))
    ensures exists n :: IsLeastCost(s0, s1, n) && score == ScoreOf(s0, s1, n)
  {
    var len0, len1 := |s0| + 1, |s1| + 1;
    var col, prevCol := new int[len1](_ => 0), new int[len1](_ => 0);
    for i := 0 to len1
      invariant forall k :: 0 <= k < i ==> prevCol[k] == k
    {
      prevCol[i] := i;
    }
    for i := 0 to len0
      invariant col != prevCol && fresh(col) && fresh(prevCol) && col.Length == prevCol.Length == len1
      invariant forall k :: 0 <= k < len1 ==> prevCol[k] == Row(s0, s1, i, k)
    {
      FillColumn(s0, s1, i, col, prevCol);
      col, prevCol := prevCol, col;
    }
    var dist := prevCol[len1 - 1];
    DistanceIsLeastCost(s0, s1);
    score := ScoreOf(s0, s1, dist);
  }

  /** What the previous row holds before pass `i`: passes 0 and 1 both start from row 0. */
  function Row(s: string, t: string, i: nat, k: nat): nat
    requires i <= |s| + 1 && k <= |t|
  {
    Distance(s, t, if i == 0 then 0 else i - 1, k)
  }

  method FillColumn(s0: string, s1: string, i: nat, col: array<int>, prevCol: array<int>)
    requires i <= |s0| && col != prevCol && col.Length == prevCol.Length == |s1| + 1
    requires forall k :: 0 <= k <= |s1| ==> prevCol[k] == Row(s0, s1, i, k)
    modifies col
    ensures forall k :: 0 <= k <= |s1| ==> col[k] == Row(s0, s1, i + 1, k)
  {
    col[0] := i;
    for j := 1 to |s1| + 1
      invariant forall k :: 0 <= k < j ==> col[k] == Row(s0, s1, i + 1, k)
    {
      var least := if 1 + col[j - 1] < 1 + prevCol[j] then 1 + col[j - 1] else 1 + prevCol[j];
      var diagonal := prevCol[j - 1] + if i > 0 && s0[i - 1] == s1[j - 1] then 0 else 1;
      col[j] := if diagonal < least then diagonal else least;
    }
  }
}
