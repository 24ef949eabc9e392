/** Assignment of Huffman codewords to a list of codeword lengths. */
module Codewords {
  import opened Bits

  // A codeword of length `l` is written as the address of its subtree: its bits from the
  // top of a 32-bit word, zeros below.  It owns the `Size(l)` words that start with its
  // bits, so a code is prefix-free exactly when those intervals are disjoint.

  const NO_CODE: nat := 255

  predicate LengthOk(l: nat) { 1 <= l <= 31 || l == NO_CODE }

  predicate LengthsOk(lens: seq<nat>) {
    forall i :: 0 <= i < |lens| ==> LengthOk(lens[i])
  }

  function Size(l: nat): (s: nat)
    requires l <= 32
    ensures s > 0
  {
    Pow2(32 - l)
  }

  /** `a` is the address of a subtree at level `l`. */
  predicate IsNode(a: nat, l: nat)
    requires l <= 32
  {
    Low(a, 32 - l) == 0 && a + Size(l) <= WORD
  }

  predicate Disjoint(a: nat, l: nat, b: nat, m: nat)
    requires l <= 32 && m <= 32
  {
    a + Size(l) <= b || b + Size(m) <= a
  }

  predicate Inside(x: int, a: nat, l: nat)
    requires l <= 32
  {
    a <= x < a + Size(l)
  }

  // ----- the specification: the lowest unused codeword, symbol by symbol -----

  /** Node `a` at level `l` is not used by the codewords of the first `n` symbols. */
  ghost predicate Unused(lens: seq<nat>, addr: seq<nat>, n: nat, a: nat, l: nat)
    requires LengthsOk(lens) && n <= |addr| && n <= |lens| && 1 <= l <= 31
  {
    IsNode(a, l) && forall j :: 0 <= j < n && lens[j] != NO_CODE ==> Disjoint(addr[j], lens[j], a, l)
  }

  ghost predicate IsLowest(lens: seq<nat>, addr: seq<nat>, i: nat)
    requires LengthsOk(lens) && i < |addr| && i < |lens| && lens[i] != NO_CODE
  {
    && Unused(lens, addr, i, addr[i], lens[i])
    && forall a: nat :: Unused(lens, addr, i, a, lens[i]) ==> addr[i] <= a
  }

  /** Section 3.2.1 of the Vorbis I specification: each symbol in turn gets the lowest
      valued unused codeword of its length. */
  ghost predicate LowestAssignment(lens: seq<nat>, addr: seq<nat>) {
    LengthsOk(lens) && |addr| <= |lens| && forall i :: 0 <= i < |addr| && lens[i] != NO_CODE ==> IsLowest(lens, addr, i)
  }

  /** No codeword is a prefix of another. */
  ghost predicate PrefixFree(lens: seq<nat>, addr: seq<nat>)
    requires LengthsOk(lens) && |addr| <= |lens|
  {
    forall i, j :: 0 <= i < j < |addr| && lens[i] != NO_CODE && lens[j] != NO_CODE ==>
      Disjoint(addr[i], lens[i], addr[j], lens[j])
  }

  lemma LowestIsPrefixFree(lens: seq<nat>, addr: seq<nat>)
    requires LowestAssignment(lens, addr)
    ensures PrefixFree(lens, addr)
  {
    forall i, j | 0 <= i < j < |addr| && lens[i] != NO_CODE && lens[j] != NO_CODE
      ensures Disjoint(addr[i], lens[i], addr[j], lens[j])
    {
      assert IsLowest(lens, addr, j);
    }
  }

  /** The specification determines the codewords. */
  lemma {:induction false} LowestIsUnique(lens: seq<nat>, addr: seq<nat>, addr': seq<nat>, i: nat)
    requires LowestAssignment(lens, addr) && LowestAssignment(lens, addr') && i < |addr| && i < |addr'|
    requires lens[i] != NO_CODE
    ensures addr[i] == addr'[i]
  {
    assert IsLowest(lens, addr, i) && IsLowest(lens, addr', i);
    forall j | 0 <= j < i && lens[j] != NO_CODE ensures addr[j] == addr'[j] {
      LowestIsUnique(lens, addr, addr', j);
    }
    assert Unused(lens, addr, i, addr'[i], lens[i]) && Unused(lens, addr', i, addr[i], lens[i]);
  }

  /** The Kraft sum of the first `n` lengths, in units of 2 to the -32. */
  function Kraft(lens: seq<nat>, n: nat): nat
    requires LengthsOk(lens) && n <= |lens|
  {
    if n == 0 then 0 else Kraft(lens, n - 1) + if lens[n - 1] == NO_CODE then 0 else Size(lens[n - 1])
  }

  lemma {:induction false} KraftMonotone(lens: seq<nat>, m: nat, n: nat)
    requires LengthsOk(lens) && m <= n <= |lens|
    ensures Kraft(lens, m) <= Kraft(lens, n)
  {
    if m < n { KraftMonotone(lens, m, n - 1); }
  }

  // ----- the free leaves -----

  /** At most one free leaf per level; zero stands for none. */
  predicate LeavesOk(av: seq<nat>) {
    |av| == 32 && forall y :: 1 <= y < 32 && av[y] != 0 ==> IsNode(av[y], y)
  }

  /** Deeper leaves lie at lower addresses. */
  predicate LeavesOrdered(av: seq<nat>)
    requires |av| == 32
  {
    forall i, j :: 1 <= i < j < 32 && av[i] != 0 && av[j] != 0 ==> av[j] + Size(j) <= av[i]
  }

  predicate InLeaf(av: seq<nat>, x: int)
    requires |av| == 32
  {
    exists y :: 1 <= y < 32 && av[y] != 0 && Inside(x, av[y], y)
  }

  predicate InCode(lens: seq<nat>, addr: seq<nat>, x: int)
    requires LengthsOk(lens) && |addr| <= |lens|
  {
    exists j :: 0 <= j < |addr| && lens[j] != NO_CODE && Inside(x, addr[j], lens[j])
  }

  function FreeSum(av: seq<nat>, y: nat): nat
    requires |av| == 32 && y <= 32
    decreases |av|, 32 - y
  {
    if y == 32 then 0 else (if av[y] == 0 then 0 else Size(y)) + FreeSum(av, y + 1)
  }

  ghost predicate CodesOk(lens: seq<nat>, addr: seq<nat>)
    requires LengthsOk(lens) && |addr| <= |lens|
  {
    forall j :: 0 <= j < |addr| && lens[j] != NO_CODE ==> IsNode(addr[j], lens[j])
  }

  ghost predicate LeavesApart(lens: seq<nat>, addr: seq<nat>, av: seq<nat>)
    requires LengthsOk(lens) && |addr| <= |lens| && |av| == 32
  {
    forall j, y :: 0 <= j < |addr| && lens[j] != NO_CODE && 1 <= y < 32 && av[y] != 0
                   ==> Disjoint(addr[j], lens[j], av[y], y)
  }

  ghost predicate Covers(lens: seq<nat>, addr: seq<nat>, av: seq<nat>)
    requires LengthsOk(lens) && |addr| <= |lens| && |av| == 32
  {
    forall x :: 0 <= x < WORD ==> InCode(lens, addr, x) || InLeaf(av, x)
  }

  /** The codewords handed out and the free leaves partition the code space. */
  ghost predicate Partition(lens: seq<nat>, addr: seq<nat>, av: seq<nat>) {
    && LengthsOk(lens) && |addr| <= |lens|
    && LeavesOk(av) && LeavesOrdered(av)
    && CodesOk(lens, addr) && PrefixFree(lens, addr)
    && LeavesApart(lens, addr, av) && Covers(lens, addr, av)
    && Kraft(lens, |addr|) + FreeSum(av, 1) == WORD
  }

  // ----- arithmetic of nodes -----

  lemma SizeStep(l: nat)
    requires 1 <= l <= 32
    ensures Size(l - 1) == 2 * Size(l)
  {
  }

  lemma SizeMonotone(l: nat, m: nat)
    requires l < m <= 32
    ensures 2 * Size(m) <= Size(l)
  {
    Pow2Monotone(32 - m, 32 - l);
  }

  /** A node is also aligned as any deeper node. */
  lemma Aligned(a: nat, l: nat, m: nat)
    requires l <= m <= 32 && Low(a, 32 - l) == 0
    ensures Low(a, 32 - m) == 0
  {
    LowLow(a, 32 - l, 32 - m);
    LowSmall(0, 32 - m);
  }

  lemma NextAligned(a: nat, k: nat)
    requires Low(a, k) == 0
    ensures Low(a + Pow2(k), k) == 0
  {
    SplitAt(a, k);
    Pow2IsShl(k);
    ShlAdd(Shr(a, k), 1, k);
    PartsOf(Shr(a, k) + 1, 0, k);
  }

  /** Nodes at one level do not overlap partly. */
  lemma SameLevel(a: nat, b: nat, k: nat)
    requires Low(a, k) == 0 && Low(b, k) == 0 && a < b
    ensures a + Pow2(k) <= b
  {
    SplitAt(a, k);
    SplitAt(b, k);
    var p, q := Shr(a, k), Shr(b, k);
    if q < p {
      ShlGrows(q, p, k);
    } else if p < q {
      ShlGrows(p, q, k);
    }
  }

  lemma HalfwayNotAligned(a: nat, j: nat, k: nat)
    requires j < k && Low(a, k) == 0
    ensures Low(a + Pow2(j), k) != 0
  {
    Pow2Monotone(j, k);
    LowAligned(a, Pow2(j), k);
  }

  // ----- taking a leaf -----

  /** The leaf at level `z` is split down to level `l`, leaving one free sibling per level. */
  function Split(av: seq<nat>, res: nat, z: nat, l: nat): (r: seq<nat>)
    requires |av| == 32 && z <= l < 32
    ensures |r| == 32
  {
    seq(32, y requires 0 <= y < 32 => if y == z then 0 else if z < y <= l then res + Size(y) else av[y])
  }

  lemma SiblingNode(res: nat, z: nat, l: nat)
    requires z < l <= 32 && IsNode(res, z)
    ensures IsNode(res + Size(l), l)
    ensures res + Size(l) + Size(l) <= res + Size(z)
  {
    SizeMonotone(z, l);
    Aligned(res, z, l);
    NextAligned(res, 32 - l);
  }

  lemma NodeDeeper(res: nat, z: nat, l: nat)
    requires z <= l <= 32 && IsNode(res, z)
    ensures IsNode(res, l) && res + Size(l) <= res + Size(z)
  {
    if z < l { SizeMonotone(z, l); }
    Aligned(res, z, l);
  }

  /** Every word of a node is in its leftmost descendant at level `l` or in a sibling. */
  lemma {:induction false} SplitCovers(res: nat, z: nat, l: nat, x: int) returns (y: nat)
    requires z <= l <= 32 && Inside(x, res, z)
    ensures y == 0 ==> Inside(x, res, l)
    ensures y != 0 ==> z < y <= l && Inside(x, res + Size(y), y)
  {
    if z == l {
      y := 0;
    } else {
      SizeStep(l);
      y := SplitCovers(res, z, l - 1, x);
      if y == 0 && x >= res + Size(l) { y := l; }
    }
  }

  lemma {:induction false} SplitOrdered(av: seq<nat>, z: nat, l: nat)
    requires LeavesOk(av) && LeavesOrdered(av) && 1 <= z <= l < 32 && av[z] != 0
    requires forall y :: z < y <= l ==> av[y] == 0
    ensures LeavesOk(Split(av, av[z], z, l)) && LeavesOrdered(Split(av, av[z], z, l))
  {
    var res, av' := av[z], Split(av, av[z], z, l);
    forall y | z < y <= l ensures IsNode(res + Size(y), y) && res + 2 * Size(y) <= res + Size(z) {
      SiblingNode(res, z, y);
    }
    forall i, j | 1 <= i < j < 32 && av'[i] != 0 && av'[j] != 0 ensures av'[j] + Size(j) <= av'[i] {
      if z < i <= l && z < j <= l { SizeMonotone(i, j); }
    }
  }

  lemma {:induction false} FreeSumSame(av: seq<nat>, av': seq<nat>, y: nat)
    requires |av| == 32 && |av'| == 32 && y <= 32
    requires forall t :: y <= t < 32 ==> (av[t] == 0 <==> av'[t] == 0)
    ensures FreeSum(av, y) == FreeSum(av', y)
    decreases 32 - y
  {
    if y < 32 { FreeSumSame(av, av', y + 1); }
  }

  /** The siblings and the codeword weigh what the leaf weighed. */
  lemma {:induction false} FreeSumSplit(av: seq<nat>, res: nat, z: nat, l: nat, y: nat)
    requires |av| == 32 && z < y <= l + 1 <= 32 && (forall t :: z < t <= l ==> av[t] == 0)
    ensures FreeSum(Split(av, res, z, l), y) + Size(l) == FreeSum(av, y) + Size(y - 1)
    decreases 32 - y
  {
    if y == l + 1 {
      FreeSumSame(av, Split(av, res, z, l), y);
    } else {
      FreeSumSplit(av, res, z, l, y + 1);
      SizeStep(y);
    }
  }

  lemma {:induction false} FreeSumTaken(av: seq<nat>, res: nat, z: nat, l: nat, y: nat)
    requires |av| == 32 && 1 <= y <= z <= l < 32 && av[z] != 0 && (forall t :: z < t <= l ==> av[t] == 0)
    ensures FreeSum(Split(av, res, z, l), y) + Size(l) == FreeSum(av, y)
    decreases 32 - y
  {
    if y == z {
      FreeSumSplit(av, res, z, l, z + 1);
    } else {
      FreeSumTaken(av, res, z, l, y + 1);
    }
  }

  /** Leaves below level `l` alone weigh less than one node at level `l`. */
  lemma {:induction false} FreeSumBound(av: seq<nat>, y: nat)
    requires |av| == 32 && 1 <= y <= 32
    ensures FreeSum(av, y) < Size(y - 1)
    decreases 32 - y
  {
    if y < 32 {
      FreeSumBound(av, y + 1);
      SizeStep(y);
    }
  }

  lemma {:induction false} FreeSumSkips(av: seq<nat>, y: nat, l: nat)
    requires |av| == 32 && y <= l <= 32 && forall t :: y <= t < l ==> av[t] == 0
    ensures FreeSum(av, y) == FreeSum(av, l)
    decreases l - y
  {
    if y < l { FreeSumSkips(av, y + 1, l); }
  }

  /** Every word starts with some codeword. */
  ghost predicate Complete(lens: seq<nat>, addr: seq<nat>) {
    LengthsOk(lens) && |addr| <= |lens| && forall x :: 0 <= x < WORD ==> InCode(lens, addr, x)
  }

  lemma {:induction false} LeafWeighs(av: seq<nat>, z: nat, y: nat)
    requires |av| == 32 && z <= y < 32 && av[y] != 0
    ensures FreeSum(av, z) > 0
    decreases y - z
  {
    if z < y { LeafWeighs(av, z + 1, y); }
  }

  /** Lengths whose Kraft sum is one leave no word without a codeword. */
  lemma FullCode(lens: seq<nat>, addr: seq<nat>, av: seq<nat>)
    requires Partition(lens, addr, av)
    ensures Kraft(lens, |addr|) == WORD ==> Complete(lens, addr)
  {
    if Kraft(lens, |addr|) == WORD {
      forall x | 0 <= x < WORD ensures InCode(lens, addr, x) {
        if InLeaf(av, x) {
          var y :| 1 <= y < 32 && av[y] != 0 && Inside(x, av[y], y);
          LeafWeighs(av, 1, y);
        }
      }
    }
  }

  // ----- the deepest leaf that is high enough is the lowest codeword -----

  lemma NotInCode(lens: seq<nat>, addr: seq<nat>, a: nat, l: nat, x: int)
    requires LengthsOk(lens) && |addr| <= |lens| && 1 <= l <= 31
    requires Unused(lens, addr, |addr|, a, l) && Inside(x, a, l)
    ensures !InCode(lens, addr, x)
  {
    forall j | 0 <= j < |addr| && lens[j] != NO_CODE ensures !Inside(x, addr[j], lens[j]) {
      assert Disjoint(addr[j], lens[j], a, l);
    }
  }

  /** A point of an unused node lies in a free leaf. */
  lemma UnusedPoint(lens: seq<nat>, addr: seq<nat>, av: seq<nat>, a: nat, l: nat, x: int) returns (y: nat)
    requires LengthsOk(lens) && |addr| <= |lens| && |av| == 32 && Covers(lens, addr, av)
    requires 1 <= l <= 31 && Unused(lens, addr, |addr|, a, l) && Inside(x, a, l)
    ensures 1 <= y < 32 && av[y] != 0 && Inside(x, av[y], y)
  {
    NotInCode(lens, addr, a, l, x);
    assert InLeaf(av, x);
    y :| 1 <= y < 32 && av[y] != 0 && Inside(x, av[y], y);
  }

  lemma DeepestIsLowest(lens: seq<nat>, addr: seq<nat>, av: seq<nat>, z: nat, l: nat, a: nat)
    requires LengthsOk(lens) && |addr| <= |lens| && LeavesOk(av) && LeavesOrdered(av) && Covers(lens, addr, av)
    requires 1 <= z <= l <= 31 && av[z] != 0 && forall y :: z < y <= l ==> av[y] == 0
    requires Unused(lens, addr, |addr|, a, l)
    ensures av[z] <= a
  {
    var y := UnusedPoint(lens, addr, av, a, l, a);
    if y > l {
      SizeMonotone(l, y);
      var y' := UnusedPoint(lens, addr, av, a, l, av[y] + Size(y));
      NoNodeBelow(av, z, l, a, y, y');
    } else {
      LeafAtStart(av, z, l, a, y);
    }
  }

  /** If a node's first word opens a leaf smaller than the node, then the word after that leaf
      is in no leaf: it would have to open a larger one, against the alignment. */
  lemma {:induction false} NoNodeBelow(av: seq<nat>, z: nat, l: nat, a: nat, y: nat, y': nat)
    requires LeavesOk(av) && LeavesOrdered(av) && 1 <= z <= l < 32 && av[z] != 0 && Low(a, 32 - l) == 0
    requires forall t :: z < t <= l ==> av[t] == 0
    requires l < y < 32 && av[y] != 0 && Inside(a, av[y], y)
    requires 1 <= y' < 32 && av[y'] != 0
    ensures !Inside(av[y] + Size(y), av[y'], y')
  {
    LeafAtStart(av, z, l, a, y);
    assert a < av[z];
    NodeDeeper(av[z], z, l);
    SameLevel(a, av[z], 32 - l);
    SizeMonotone(l, y);
    if Inside(a + Size(y), av[y'], y') {
      LeafAfter(av, z, l, a, y, y');
      Aligned(a, l, y');
      HalfwayNotAligned(a, 32 - y, 32 - y');
    }
  }

  lemma LeafAtStart(av: seq<nat>, z: nat, l: nat, a: nat, y: nat)
    requires LeavesOk(av) && LeavesOrdered(av) && 1 <= z <= l <= 31 && av[z] != 0
    requires forall t :: z < t <= l ==> av[t] == 0
    requires Low(a, 32 - l) == 0 && 1 <= y < 32 && av[y] != 0 && Inside(a, av[y], y)
    ensures a < av[z] ==> y > l
    ensures y > l ==> av[y] == a
  {
    assert y < z ==> av[z] + Size(z) <= av[y];
    if y > l {
      Aligned(a, l, y);
      if av[y] < a { SameLevel(av[y], a, 32 - y); }
    }
  }

  lemma LeafAfter(av: seq<nat>, z: nat, l: nat, a: nat, y: nat, y': nat)
    requires LeavesOk(av) && LeavesOrdered(av) && 1 <= z <= l < y < 32 && av[z] != 0 && av[y] == a != 0
    requires (forall t :: z < t <= l ==> av[t] == 0) && a + Size(l) <= av[z] && a + 2 * Size(y) <= a + Size(l)
    requires 1 <= y' < 32 && av[y'] != 0 && Inside(a + Size(y), av[y'], y')
    ensures l < y' < y && av[y'] == a + Size(y)
  {
  }

  // ----- one step of the assignment -----

  ghost predicate CanTake(lens: seq<nat>, addr: seq<nat>, av: seq<nat>, z: nat) {
    && LengthsOk(lens) && |addr| < |lens| && lens[|addr|] != NO_CODE && LeavesOk(av) && LeavesOrdered(av)
    && 1 <= z <= lens[|addr|] && av[z] != 0 && forall y :: z < y <= lens[|addr|] ==> av[y] == 0
  }

  lemma TakeLeaf(lens: seq<nat>, addr: seq<nat>, av: seq<nat>, z: nat)
    requires Partition(lens, addr, av) && CanTake(lens, addr, av, z)
    ensures Partition(lens, addr + [av[z]], Split(av, av[z], z, lens[|addr|]))
    ensures IsLowest(lens, addr + [av[z]], |addr|)
  {
    var l, res := lens[|addr|], av[z];
    SplitOrdered(av, z, l);
    TakenPrefixFree(lens, addr, av, z);
    TakenApart(lens, addr, av, z);
    TakenCovers(lens, addr, av, z);
    TakenLowest(lens, addr, av, z);
    TakenSum(lens, addr, av, z);
  }

  lemma TakenSum(lens: seq<nat>, addr: seq<nat>, av: seq<nat>, z: nat)
    requires CanTake(lens, addr, av, z) && Kraft(lens, |addr|) + FreeSum(av, 1) == WORD
    ensures Kraft(lens, |addr + [av[z]]|) + FreeSum(Split(av, av[z], z, lens[|addr|]), 1) == WORD
  {
    FreeSumTaken(av, av[z], z, lens[|addr|], 1);
    KraftPrefix(lens, |addr|);
  }

  lemma KraftPrefix(lens: seq<nat>, n: nat)
    requires LengthsOk(lens) && n < |lens|
    ensures Kraft(lens, n + 1) == Kraft(lens, n) + if lens[n] == NO_CODE then 0 else Size(lens[n])
  {
  }

  lemma UnusedPrefix(lens: seq<nat>, addr: seq<nat>, res: nat, a: nat, l: nat)
    requires LengthsOk(lens) && |addr| < |lens| && 1 <= l <= 31
    ensures Unused(lens, addr + [res], |addr|, a, l) <==> Unused(lens, addr, |addr|, a, l)
  {
    assert forall j :: 0 <= j < |addr| ==> (addr + [res])[j] == addr[j];
  }

  lemma TakenLowest(lens: seq<nat>, addr: seq<nat>, av: seq<nat>, z: nat)
    requires CanTake(lens, addr, av, z) && LeavesApart(lens, addr, av) && Covers(lens, addr, av)
    ensures IsLowest(lens, addr + [av[z]], |addr|)
  {
    var l, res := lens[|addr|], av[z];
    var addr' := addr + [res];
    forall a: nat | Unused(lens, addr', |addr|, a, l) ensures res <= a {
      UnusedPrefix(lens, addr, res, a, l);
      DeepestIsLowest(lens, addr, av, z, l, a);
    }
    NodeDeeper(res, z, l);
    UnusedPrefix(lens, addr, res, res, l);
    forall j | 0 <= j < |addr| && lens[j] != NO_CODE ensures Disjoint(addr[j], lens[j], res, l) {
      assert Disjoint(addr[j], lens[j], res, z);
    }
  }

  lemma TakenPrefixFree(lens: seq<nat>, addr: seq<nat>, av: seq<nat>, z: nat)
    requires CanTake(lens, addr, av, z) && PrefixFree(lens, addr) && CodesOk(lens, addr) && LeavesApart(lens, addr, av)
    ensures PrefixFree(lens, addr + [av[z]]) && CodesOk(lens, addr + [av[z]])
  {
    var n, l, res := |addr|, lens[|addr|], av[z];
    var addr' := addr + [res];
    NodeDeeper(res, z, l);
    forall i, j | 0 <= i < j < |addr'| && lens[i] != NO_CODE && lens[j] != NO_CODE
      ensures Disjoint(addr'[i], lens[i], addr'[j], lens[j])
    {
      if j == n { assert Disjoint(addr[i], lens[i], res, z); }
    }
  }

  lemma TakenApart(lens: seq<nat>, addr: seq<nat>, av: seq<nat>, z: nat)
    requires CanTake(lens, addr, av, z) && LeavesApart(lens, addr, av)
    ensures LeavesApart(lens, addr + [av[z]], Split(av, av[z], z, lens[|addr|]))
  {
    var n, l, res := |addr|, lens[|addr|], av[z];
    var addr', av' := addr + [res], Split(av, res, z, l);
    forall j, y | 0 <= j < |addr'| && lens[j] != NO_CODE && 1 <= y < 32 && av'[y] != 0
      ensures Disjoint(addr'[j], lens[j], av'[y], y)
    {
      if j < n {
        ApartFromOlder(av, z, l, y, addr[j], lens[j]);
      } else {
        ApartFromNew(av, z, l, y);
      }
    }
  }

  lemma ApartFromOlder(av: seq<nat>, z: nat, l: nat, y: nat, a: nat, m: nat)
    requires LeavesOk(av) && 1 <= z <= l < 32 && av[z] != 0 && m <= 32 && Disjoint(a, m, av[z], z)
    requires 1 <= y < 32 && Split(av, av[z], z, l)[y] != 0 && (av[y] != 0 ==> Disjoint(a, m, av[y], y))
    ensures Disjoint(a, m, Split(av, av[z], z, l)[y], y)
  {
    if z < y <= l { SiblingNode(av[z], z, y); }
  }

  lemma ApartFromNew(av: seq<nat>, z: nat, l: nat, y: nat)
    requires LeavesOk(av) && LeavesOrdered(av) && 1 <= z <= l < 32 && av[z] != 0
    requires 1 <= y < 32 && Split(av, av[z], z, l)[y] != 0
    ensures Disjoint(av[z], l, Split(av, av[z], z, l)[y], y)
  {
    NodeDeeper(av[z], z, l);
    if z < y <= l {
      if y < l { SizeMonotone(y, l); }
    } else if y < z {
      assert av[z] + Size(z) <= av[y];
    } else {
      assert av[y] + Size(y) <= av[z];
    }
  }

  lemma TakenCovers(lens: seq<nat>, addr: seq<nat>, av: seq<nat>, z: nat)
    requires CanTake(lens, addr, av, z) && Covers(lens, addr, av)
    ensures Covers(lens, addr + [av[z]], Split(av, av[z], z, lens[|addr|]))
  {
    var addr', av' := addr + [av[z]], Split(av, av[z], z, lens[|addr|]);
    forall x | 0 <= x < WORD ensures InCode(lens, addr', x) || InLeaf(av', x) {
      if InCode(lens, addr, x) {
        CodeKept(lens, addr, av[z], x);
      } else {
        LeafSplit(lens, addr, av, z, x);
      }
    }
  }

  lemma CodeKept(lens: seq<nat>, addr: seq<nat>, res: nat, x: int)
    requires LengthsOk(lens) && |addr| < |lens| && InCode(lens, addr, x)
    ensures InCode(lens, addr + [res], x)
  {
    var j :| 0 <= j < |addr| && lens[j] != NO_CODE && Inside(x, addr[j], lens[j]);
    assert (addr + [res])[j] == addr[j];
  }

  lemma LeafSplit(lens: seq<nat>, addr: seq<nat>, av: seq<nat>, z: nat, x: int)
    requires CanTake(lens, addr, av, z) && InLeaf(av, x)
    ensures InCode(lens, addr + [av[z]], x) || InLeaf(Split(av, av[z], z, lens[|addr|]), x)
  {
    var n, l, res := |addr|, lens[|addr|], av[z];
    var addr', av' := addr + [res], Split(av, res, z, l);
    var y :| 1 <= y < 32 && av[y] != 0 && Inside(x, av[y], y);
    if y == z {
      var t := SplitCovers(res, z, l, x);
      if t == 0 { assert addr'[n] == res; } else { assert av'[t] == res + Size(t); }
    } else {
      assert av'[y] == av[y];
    }
  }

  // ----- the first symbol, and symbols without a codeword -----

  function NoLeaves(): seq<nat> { seq(32, _ => 0) }

  lemma {:induction false} NoLeavesSum(y: nat)
    requires y <= 32
    ensures FreeSum(NoLeaves(), y) == 0
    decreases 32 - y
  {
    if y < 32 { NoLeavesSum(y + 1); }
  }

  lemma {:induction false} KraftNone(lens: seq<nat>, n: nat)
    requires LengthsOk(lens) && n <= |lens| && forall j :: 0 <= j < n ==> lens[j] == NO_CODE
    ensures Kraft(lens, n) == 0
  {
    if n > 0 { KraftNone(lens, n - 1); }
  }

  predicate FirstAt(lens: seq<nat>, addr: seq<nat>, k: nat) {
    && LengthsOk(lens) && k < |lens| && lens[k] != NO_CODE && |addr| == k + 1 && addr[k] == 0
    && forall j :: 0 <= j < k ==> lens[j] == NO_CODE
  }

  lemma FirstSymbol(lens: seq<nat>, addr: seq<nat>, k: nat)
    requires FirstAt(lens, addr, k)
    ensures Partition(lens, addr, Split(NoLeaves(), 0, 0, lens[k])) && LowestAssignment(lens, addr)
  {
    FirstLeaves(lens[k]);
    FirstCovers(lens, addr, k);
    FirstApart(lens, addr, k);
    FirstAssigned(lens, addr, k);
    FirstSum(lens, k);
  }

  // The root is passed as a level, which keeps the verifier from unfolding 2 to the 32.
  lemma RootNode(root: nat, l: nat)
    requires root == 0 && 1 <= l <= 31
    ensures IsNode(0, root) && IsNode(0, l) && Size(root) == WORD
  {
    Pow2Values();
    LowSmall(0, 32 - root);
    NodeDeeper(0, root, l);
  }

  lemma ZeroNode(l: nat)
    requires 1 <= l <= 31
    ensures IsNode(0, l)
  {
    var root := 0;
    RootNode(root, l);
  }

  lemma FirstAssigned(lens: seq<nat>, addr: seq<nat>, k: nat)
    requires FirstAt(lens, addr, k)
    ensures CodesOk(lens, addr) && PrefixFree(lens, addr) && LowestAssignment(lens, addr)
  {
    ZeroNode(lens[k]);
    assert Unused(lens, addr, k, 0, lens[k]);
  }

  lemma FirstApart(lens: seq<nat>, addr: seq<nat>, k: nat)
    requires FirstAt(lens, addr, k)
    ensures LeavesApart(lens, addr, Split(NoLeaves(), 0, 0, lens[k]))
  {
    FirstBelowLeaves(lens[k]);
  }

  lemma FirstBelowLeaves(l: nat)
    requires 1 <= l <= 31
    ensures forall y :: 1 <= y < 32 && Split(NoLeaves(), 0, 0, l)[y] != 0 ==>
              Disjoint(0, l, Split(NoLeaves(), 0, 0, l)[y], y)
  {
    forall y | 1 <= y <= l ensures Size(l) <= Size(y) {
      if y < l { SizeMonotone(y, l); }
    }
  }

  lemma FirstSum(lens: seq<nat>, k: nat)
    requires LengthsOk(lens) && k < |lens| && lens[k] != NO_CODE && forall j :: 0 <= j < k ==> lens[j] == NO_CODE
    ensures Kraft(lens, k + 1) + FreeSum(Split(NoLeaves(), 0, 0, lens[k]), 1) == WORD
  {
    var root := 0;
    RootNode(root, lens[k]);
    FreeSumSplit(NoLeaves(), 0, root, lens[k], root + 1);
    NoLeavesSum(root + 1);
    KraftNone(lens, k);
    KraftPrefix(lens, k);
  }

  lemma FirstLeaves(l: nat)
    requires 1 <= l < 32
    ensures LeavesOk(Split(NoLeaves(), 0, 0, l)) && LeavesOrdered(Split(NoLeaves(), 0, 0, l))
  {
    var av := Split(NoLeaves(), 0, 0, l);
    forall y | 1 <= y < 32 && av[y] != 0 ensures IsNode(av[y], y) { FirstSibling(y); }
    forall i, j | 1 <= i < j < 32 && av[i] != 0 && av[j] != 0 ensures av[j] + Size(j) <= av[i] { SizeMonotone(i, j); }
  }

  lemma FirstSibling(y: nat)
    requires 1 <= y < 32
    ensures IsNode(Size(y), y)
  {
    var root := 0;
    RootNode(root, y);
    SiblingNode(0, root, y);
  }

  lemma FirstCovers(lens: seq<nat>, addr: seq<nat>, k: nat)
    requires FirstAt(lens, addr, k)
    ensures Covers(lens, addr, Split(NoLeaves(), 0, 0, lens[k]))
  {
    var l, av := lens[k], Split(NoLeaves(), 0, 0, lens[k]);
    Pow2Values();
    forall x | 0 <= x < WORD ensures InCode(lens, addr, x) || InLeaf(av, x) {
      var t := SplitCovers(0, 0, l, x);
      if t == 0 { assert Inside(x, addr[k], lens[k]); } else { assert av[t] == Size(t); }
    }
  }

  lemma SkipSymbol(lens: seq<nat>, addr: seq<nat>, av: seq<nat>)
    requires Partition(lens, addr, av) && |addr| < |lens| && lens[|addr|] == NO_CODE
    ensures Partition(lens, addr + [0], av)
  {
    SkipCovers(lens, addr, av);
    SkipApart(lens, addr, av);
    SkipSum(lens, addr, av);
  }

  lemma SkipSum(lens: seq<nat>, addr: seq<nat>, av: seq<nat>)
    requires LengthsOk(lens) && |addr| < |lens| && lens[|addr|] == NO_CODE && |av| == 32
    requires Kraft(lens, |addr|) + FreeSum(av, 1) == WORD
    ensures Kraft(lens, |addr + [0]|) + FreeSum(av, 1) == WORD
  {
    KraftPrefix(lens, |addr|);
  }

  lemma SkipCovers(lens: seq<nat>, addr: seq<nat>, av: seq<nat>)
    requires LengthsOk(lens) && |addr| < |lens| && |av| == 32 && Covers(lens, addr, av)
    ensures Covers(lens, addr + [0], av)
  {
    forall x | 0 <= x < WORD ensures InCode(lens, addr + [0], x) || InLeaf(av, x) {
      if InCode(lens, addr, x) { CodeKept(lens, addr, 0, x); }
    }
  }

  lemma SkipApart(lens: seq<nat>, addr: seq<nat>, av: seq<nat>)
    requires LengthsOk(lens) && |addr| < |lens| && lens[|addr|] == NO_CODE && |av| == 32
    requires CodesOk(lens, addr) && PrefixFree(lens, addr) && LeavesApart(lens, addr, av)
    ensures CodesOk(lens, addr + [0]) && PrefixFree(lens, addr + [0]) && LeavesApart(lens, addr + [0], av)
  {
    assert forall j :: 0 <= j < |addr| ==> (addr + [0])[j] == addr[j];
  }

  lemma ExtendAssignment(lens: seq<nat>, addr: seq<nat>, a: nat)
    requires LowestAssignment(lens, addr) && |addr| < |lens|
    requires lens[|addr|] != NO_CODE ==> IsLowest(lens, addr + [a], |addr|)
    ensures LowestAssignment(lens, addr + [a])
  {
    var addr' := addr + [a];
    forall i | 0 <= i < |addr| && lens[i] != NO_CODE ensures IsLowest(lens, addr', i) {
      assert IsLowest(lens, addr, i);
      assert forall j :: 0 <= j <= i ==> addr'[j] == addr[j];
      assert forall b: nat :: Unused(lens, addr', i, b, lens[i]) <==> Unused(lens, addr, i, b, lens[i]);
    }
  }

  /** Without a free leaf at or above level `l`, the lengths ask for more than there is. */
  lemma Overfull(lens: seq<nat>, addr: seq<nat>, av: seq<nat>)
    requires LengthsOk(lens) && |addr| < |lens| && lens[|addr|] != NO_CODE && |av| == 32
    requires Kraft(lens, |addr|) + FreeSum(av, 1) == WORD
    requires forall y :: 1 <= y <= lens[|addr|] ==> av[y] == 0
    ensures Kraft(lens, |lens|) > WORD
  {
    var n, l := |addr|, lens[|addr|];
    FreeSumSkips(av, 1, l + 1);
    FreeSumBound(av, l + 1);
    KraftPrefix(lens, n);
    KraftMonotone(lens, n + 1, |lens|);
  }

  // ----- the tables that the assignment fills -----

  /** The symbols that have a codeword, in order. */
  function CodedSymbols(lens: seq<nat>, n: nat): (r: seq<nat>)
    requires n <= |lens|
    ensures forall m :: 0 <= m < |r| ==> r[m] < n && lens[r[m]] != NO_CODE
  {
    if n == 0 then []
    else CodedSymbols(lens, n - 1) + if lens[n - 1] == NO_CODE then [] else [n - 1]
  }

  lemma {:induction false} CodedNone(lens: seq<nat>, n: nat)
    requires n <= |lens| && forall j :: 0 <= j < n ==> lens[j] == NO_CODE
    ensures CodedSymbols(lens, n) == []
  {
    if n > 0 { CodedNone(lens, n - 1); }
  }

  datatype Tables = Tables(codewords: seq<nat>, lengths: seq<nat>, values: seq<nat>)

  /** Dense tables are indexed by symbol; sparse ones list the coded symbols in order. */
  ghost predicate TablesHold(t: Tables, sparse: bool, lens: seq<nat>, addr: seq<nat>)
    requires |addr| <= |lens|
  {
    if sparse then
      && t.values == CodedSymbols(lens, |addr|) && |t.codewords| == |t.lengths| == |t.values|
      && forall m :: 0 <= m < |t.values| ==>
           && t.values[m] < |addr| && t.codewords[m] == Reverse(addr[t.values[m]], 32)
              && t.lengths[m] == lens[t.values[m]]
    else
      && |t.codewords| == |lens|
      && forall j :: 0 <= j < |addr| && lens[j] != NO_CODE ==> t.codewords[j] == Reverse(addr[j], 32)
  }

  function AddEntry(t: Tables, sparse: bool, code: nat, symbol: nat, len: nat): Tables
    requires sparse || symbol < |t.codewords|
  {
    if !sparse then t.(codewords := t.codewords[symbol := code])
    else Tables(t.codewords + [code], t.lengths + [len], t.values + [symbol])
  }

  lemma {:induction false} EntryAdded(t: Tables, sparse: bool, lens: seq<nat>, addr: seq<nat>, a: nat)
    requires |addr| < |lens| && lens[|addr|] != NO_CODE && TablesHold(t, sparse, lens, addr)
    ensures TablesHold(AddEntry(t, sparse, Reverse(a, 32), |addr|, lens[|addr|]), sparse, lens, addr + [a])
  {
  }

  lemma EntrySkipped(t: Tables, sparse: bool, lens: seq<nat>, addr: seq<nat>)
    requires |addr| < |lens| && lens[|addr|] == NO_CODE && TablesHold(t, sparse, lens, addr)
    ensures TablesHold(t, sparse, lens, addr + [0])
  {
  }

  // ----- the algorithm -----

  /** What holds after each symbol. */
  ghost predicate Progress(lens: seq<nat>, addr: seq<nat>, av: seq<nat>, t: Tables, sparse: bool) {
    Partition(lens, addr, av) && LowestAssignment(lens, addr) && TablesHold(t, sparse, lens, addr)
  }

  /** Succeeds exactly when the Kraft sum is at most one, and then gives every symbol the
      lowest unused codeword of its length, bit-reversed. */
  method ComputeCodewords(lens: seq<nat>, sparse: bool) returns (ok: bool, t: Tables, ghost addr: seq<nat>)
    requires LengthsOk(lens)
    ensures ok <==> Kraft(lens, |lens|) <= WORD
    ensures ok ==> |addr| == |lens| && LowestAssignment(lens, addr) && PrefixFree(lens, addr) && CodesOk(lens, addr)
    ensures ok ==> TablesHold(t, sparse, lens, addr)
    ensures Kraft(lens, |lens|) == WORD ==> Complete(lens, addr)
  {
    var n := |lens|;
    var k := 0;
    while k < n && lens[k] == NO_CODE
      invariant 0 <= k <= n && forall j :: 0 <= j < k ==> lens[j] == NO_CODE
    {
      k := k + 1;
    }
    if k == n {
      t := if sparse then Tables([], [], []) else Tables(seq(n, _ => 0), [], []);
      addr := seq(n, _ => 0);
      KraftNone(lens, n);
      CodedNone(lens, n);
      return true, t, addr;
    }
    var available := new nat[32](_ => 0);
    t, addr := AssignFirst(lens, k, sparse, available);
    var i := k + 1;
    while i < n
      invariant k < i <= n && |addr| == i && Progress(lens, addr, available[..], t, sparse)
    {
      ok, t, addr := AssignNext(lens, i, available, t, sparse, addr);
      if !ok { return; }
      i := i + 1;
    }
    FullCode(lens, addr, available[..]);
    ok := true;
  }

  method AssignFirst(lens: seq<nat>, k: nat, sparse: bool, available: array<nat>)
    returns (t: Tables, ghost addr: seq<nat>)
    requires LengthsOk(lens) && k < |lens| && lens[k] != NO_CODE && forall j :: 0 <= j < k ==> lens[j] == NO_CODE
    requires available[..] == NoLeaves()
    modifies available
    ensures |addr| == k + 1 && Progress(lens, addr, available[..], t, sparse)
  {
    var empty := if sparse then Tables([], [], []) else Tables(seq(|lens|, _ => 0), [], []);
    addr := seq(k, _ => 0);
    CodedNone(lens, k);
    ReverseZero(32);
    EntryAdded(empty, sparse, lens, addr, 0);
    t, addr := AddEntry(empty, sparse, 0, k, lens[k]), addr + [0];
    FirstAvailable(available, lens[k]);
    FirstSymbol(lens, addr, k);
  }

  method AssignNext(lens: seq<nat>, i: nat, available: array<nat>, t0: Tables, sparse: bool, ghost addr0: seq<nat>)
    returns (ok: bool, t: Tables, ghost addr: seq<nat>)
    requires LengthsOk(lens) && i < |lens| && |addr0| == i && Progress(lens, addr0, available[..], t0, sparse)
    modifies available
    ensures ok ==> |addr| == i + 1 && Progress(lens, addr, available[..], t, sparse)
    ensures !ok ==> Kraft(lens, |lens|) > WORD
  {
    ghost var av := available[..];
    t, ok := t0, true;
    if lens[i] == NO_CODE {
      SkipSymbol(lens, addr0, av);
      ExtendAssignment(lens, addr0, 0);
      EntrySkipped(t, sparse, lens, addr0);
      addr := addr0 + [0];
      return;
    }
    var z := FindLeaf(available, lens[i]);
    if z == 0 {
      Overfull(lens, addr0, av);
      return false, t, addr0;
    }
    var res := available[z];
    TakeLeaf(lens, addr0, av, z);
    ExtendAssignment(lens, addr0, res);
    BitReverseReverses(res);
    EntryAdded(t, sparse, lens, addr0, res);
    t := AddEntry(t, sparse, BitReverse(res), i, lens[i]);
    Propagate(available, z, lens[i]);
    addr := addr0 + [res];
  }

  // The leaves that the first codeword leaves free.
  method FirstAvailable(available: array<nat>, l: nat)
    requires available[..] == NoLeaves() && 1 <= l < 32
    modifies available
    ensures available[..] == Split(NoLeaves(), 0, 0, l)
  {
    var i := 1;
    while i <= l
      invariant 1 <= i <= l + 1
      invariant forall y :: 0 <= y < 32 ==> available[y] == if 1 <= y < i then Size(y) else 0
    {
      available[i] := Pow2(32 - i);
      i := i + 1;
    }
  }

  // The deepest free leaf at or above level `l`, or 0.
  method FindLeaf(available: array<nat>, l: nat) returns (z: nat)
    requires available.Length == 32 && 1 <= l < 32
    ensures z <= l && (z > 0 ==> available[z] != 0)
    ensures forall y :: z < y <= l ==> available[y] == 0
  {
    z := l;
    while z > 0 && available[z] == 0
      invariant z <= l && forall y :: z < y <= l ==> available[y] == 0
    {
      z := z - 1;
    }
  }

  // Frees the siblings on the way down; the slots they go to are always empty.
  method Propagate(available: array<nat>, z: nat, l: nat)
    requires available.Length == 32 && 1 <= z <= l < 32 && forall y :: z < y <= l ==> available[y] == 0
    modifies available
    ensures available[..] == Split(old(available[..]), old(available[z]), z, l)
  {
    var res := available[z];
    available[z] := 0;
    var y := l;
    while y > z
      invariant z <= y <= l
      invariant forall t :: 0 <= t < 32 ==>
                available[t] == if t == z then 0 else if y < t <= l then res + Size(t) else old(available[t])
    {
      assert available[y] == 0;
      available[y] := res + Pow2(32 - y);
      y := y - 1;
    }
  }
}
