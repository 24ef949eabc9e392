/** The lookup tables that a codebook decodes with: the accelerated table for short
    codewords, and the sorted codewords for binary search. */
module Codebook {
  import opened Bits
  import opened Codewords

  const FAST_LENGTH: nat := 10
  const FAST_SIZE: nat := 1024
  const FAST_LIMIT: nat := 32767

  // ----- codewords and words -----

  /** The low `l` bits of `word` are the codeword `code`, first bit lowest. */
  predicate Matches(word: nat, code: nat, l: nat) {
    Low(word, l) == code
  }

  /** A word starts with a codeword exactly when its reversal lies in the codeword's subtree. */
  lemma MatchIsInside(word: nat, a: nat, l: nat)
    requires word < WORD && 1 <= l <= 31 && IsNode(a, l)
    ensures Matches(word, Reverse(a, 32), l) <==> Inside(Reverse(word, 32), a, l)
  {
    var k := 32 - l;
    var q := Shr(a, k);
    CodeOfNode(a, l);
    SplitAt(a, k);
    ReverseSplit(word, l, k);
    ReverseBound(Shr(word, l), k);
    var p := Reverse(word, l);
    ReverseInvolution(word, l);
    if p == q {
    } else if p < q {
      ShlGrows(p, q, k);
    } else {
      ShlGrows(q, p, k);
    }
    if Low(word, l) == Reverse(q, l) {
      ReverseLow(word, l, l);
      ReverseInvolution(q, l);
    }
  }

  /** The stored codeword of a node: its own bits reversed, and nothing above them. */
  lemma CodeOfNode(a: nat, l: nat)
    requires 1 <= l <= 31 && IsNode(a, l)
    ensures var q := Shr(a, 32 - l); q < Pow2(l) && Low(q, l) == q && Reverse(a, 32) == Reverse(q, l) < Pow2(l)
  {
    var k := 32 - l;
    Pow2Values();
    ShrBound(a, k, l);
    LowSmall(Shr(a, k), l);
    ReverseSplit(a, k, l);
    ReverseLow(a, k, k);
    ReverseZero(k);
    ShlZero(l);
    ReverseBound(Shr(a, k), l);
  }

  /** A prefix-free set of codewords, one per symbol that has a length. */
  ghost predicate IsCode(lens: seq<nat>, addr: seq<nat>) {
    LengthsOk(lens) && |addr| == |lens| && CodesOk(lens, addr) && PrefixFree(lens, addr)
  }

  ghost predicate SymbolMatches(lens: seq<nat>, addr: seq<nat>, i: int, word: nat)
    requires |addr| == |lens|
  {
    0 <= i < |lens| && lens[i] != NO_CODE && Matches(word, Reverse(addr[i], 32), lens[i])
  }

  lemma UniqueMatch(lens: seq<nat>, addr: seq<nat>, i: int, j: int, word: nat)
    requires IsCode(lens, addr) && word < WORD && SymbolMatches(lens, addr, i, word)
    requires SymbolMatches(lens, addr, j, word)
    ensures i == j
  {
    MatchIsInside(word, addr[i], lens[i]);
    MatchIsInside(word, addr[j], lens[j]);
  }

  // ----- the accelerated table -----

  lemma {:induction false} LowAtMost(n: nat, k: nat)
    ensures Low(n, k) <= n
  {
    if k > 0 { LowAtMost(n / 2, k - 1); }
  }

  lemma NextMatch(x: nat, y: nat, k: nat)
    requires Low(x, k) == Low(y, k) && x < y
    ensures x + Pow2(k) <= y
  {
    SplitAt(x, k);
    SplitAt(y, k);
    if Shr(y, k) < Shr(x, k) { ShlGrows(Shr(y, k), Shr(x, k), k); }
    if Shr(x, k) < Shr(y, k) { ShlGrows(Shr(x, k), Shr(y, k), k); }
  }

  lemma StepMatch(x: nat, k: nat)
    ensures Low(x + Pow2(k), k) == Low(x, k)
  {
    SplitAt(x, k);
    Pow2IsShl(k);
    ShlAdd(Shr(x, k), 1, k);
    PartsOf(Shr(x, k) + 1, Low(x, k), k);
  }

  /** Entry `z` of the table names a short codeword that `z` starts with, if there is one. */
  predicate FastOk(fast: seq<int>, codes: seq<nat>, lengths: seq<nat>, n: nat)
    requires n <= |codes| && n <= |lengths|
  {
    && |fast| == FAST_SIZE
    && (forall z :: 0 <= z < FAST_SIZE && fast[z] != -1 ==>
          0 <= fast[z] < n && lengths[fast[z]] <= FAST_LENGTH && Matches(z, codes[fast[z]], lengths[fast[z]]))
    && (forall z, i :: 0 <= z < FAST_SIZE && 0 <= i < n && lengths[i] <= FAST_LENGTH && Matches(z, codes[i], lengths[i])
          ==> fast[z] != -1)
  }

  method ComputeAccelerated(codes: seq<nat>, lengths: seq<nat>) returns (fast: seq<int>)
    requires |codes| == |lengths|
    requires forall i :: 0 <= i < |codes| ==> lengths[i] == NO_CODE || codes[i] < Pow2(lengths[i])
    ensures FastOk(fast, codes, lengths, if |codes| > FAST_LIMIT then FAST_LIMIT else |codes|)
  {
    var table := new int[FAST_SIZE](_ => -1);
    var len := |codes|;
    if len > FAST_LIMIT { len := FAST_LIMIT; }
    var i := 0;
    while i < len
      invariant 0 <= i <= len && FastOk(table[..], codes, lengths, i)
    {
      if lengths[i] <= FAST_LENGTH {
        ghost var before := table[..];
        FillMatches(table, codes[i], lengths[i], i);
        FillKeepsOk(before, table[..], codes, lengths, i);
      }
      i := i + 1;
    }
    fast := table[..];
  }

  lemma FillKeepsOk(before: seq<int>, fast: seq<int>, codes: seq<nat>, lengths: seq<nat>, i: nat)
    requires i < |codes| == |lengths| && FastOk(before, codes, lengths, i) && |fast| == FAST_SIZE
    requires lengths[i] <= FAST_LENGTH
    requires forall z :: 0 <= z < FAST_SIZE ==> fast[z] == if Matches(z, codes[i], lengths[i]) then i else before[z]
    ensures FastOk(fast, codes, lengths, i + 1)
  {
  }

  // Sets the entries of every index that starts with the codeword.
  method FillMatches(fast: array<int>, code: nat, l: nat, i: nat)
    requires fast.Length == FAST_SIZE && l <= FAST_LENGTH && code < Pow2(l)
    modifies fast
    ensures forall z :: 0 <= z < FAST_SIZE ==> fast[z] == if Matches(z, code, l) then i else old(fast[z])
  {
    var z := code;
    LowSmall(code, l);
    forall x | 0 <= x < code ensures !Matches(x, code, l) { LowAtMost(x, l); }
    while z < FAST_SIZE
      invariant Matches(z, code, l)
      invariant forall x :: 0 <= x < FAST_SIZE && x < z ==> fast[x] == if Matches(x, code, l) then i else old(fast[x])
      invariant forall x :: z <= x < FAST_SIZE ==> fast[x] == old(fast[x])
      decreases FAST_SIZE - z
    {
      fast[z] := i;
      forall x | z < x < z + Pow2(l) ensures !Matches(x, code, l) {
        if Matches(x, code, l) { NextMatch(z, x, l); }
      }
      StepMatch(z, l);
      z := z + Pow2(l);
    }
  }

  // ----- sorting and searching -----

  predicate Ascending(s: seq<nat>) {
    forall i, j :: 0 <= i < j < |s| ==> s[i] < s[j]
  }

  predicate Distinct(s: seq<nat>) {
    forall i, j :: 0 <= i < j < |s| ==> s[i] != s[j]
  }

  /** What qsort is asked for: the same distinct numbers in ascending order. */
  method Sort(a: seq<nat>) returns (s: seq<nat>)
    requires Distinct(a)
    ensures Ascending(s) && |s| == |a| && forall v :: v in s <==> v in a
  {
    s := [];
    for i := 0 to |a|
      invariant Ascending(s) && |s| == i && forall v :: v in s <==> v in a[..i]
    {
      assert a[i] !in a[..i];
      s := Insert(s, a[i]);
      assert a[..i + 1] == a[..i] + [a[i]];
    }
    assert a[..|a|] == a;
  }

  method Insert(s: seq<nat>, v: nat) returns (r: seq<nat>)
    requires Ascending(s) && v !in s
    ensures Ascending(r) && |r| == |s| + 1 && forall w :: w in r <==> w in s || w == v
  {
    var k := 0;
    while k < |s| && s[k] < v
      invariant 0 <= k <= |s| && forall i :: 0 <= i < k ==> s[i] < v
    {
      k := k + 1;
    }
    r := s[..k] + [v] + s[k..];
    assert s == s[..k] + s[k..];
    assert forall i :: k <= i < |s| ==> s[i] > v;
  }

  /** The last of the first `n` sorted codewords that is at most `code`, or 0. */
  method Search(sorted: seq<nat>, n: nat, code: nat) returns (x: nat)
    requires 0 < n <= |sorted| && Ascending(sorted[..n])
    ensures x < n && (x > 0 ==> sorted[x] <= code) && forall y :: x < y < n ==> code < sorted[y]
  {
    var m := n;
    x := 0;
    assert forall i :: 0 <= i < n ==> sorted[..n][i] == sorted[i];
    while m > 1
      invariant 0 < m && x + m <= n && (x > 0 ==> sorted[x] <= code)
      invariant forall y :: x + m <= y < n ==> code < sorted[y]
    {
      var mid := x + m / 2;
      if sorted[mid] <= code {
        x := mid;
        m := m - m / 2;
      } else {
        m := m / 2;
      }
    }
  }

  // ----- the sorted tables -----

  const SENTINEL: nat := 0xFFFF_FFFF

  /** Sparse books sort every codeword; dense ones only those the fast table cannot hold. */
  predicate Included(sparse: bool, l: nat) {
    l != NO_CODE && (sparse || l > FAST_LENGTH)
  }

  function Listed(lens: seq<nat>, n: nat, sparse: bool): (r: seq<nat>)
    requires n <= |lens|
    ensures forall m :: 0 <= m < |r| ==> r[m] < n && Included(sparse, lens[r[m]])
  {
    if n == 0 then []
    else Listed(lens, n - 1, sparse) + if Included(sparse, lens[n - 1]) then [n - 1] else []
  }

  lemma {:induction false} ListedAll(lens: seq<nat>, n: nat, sparse: bool)
    requires n <= |lens|
    ensures forall v :: 0 <= v < n && Included(sparse, lens[v]) ==> v in Listed(lens, n, sparse)
    ensures forall i, j :: 0 <= i < j < |Listed(lens, n, sparse)| ==>
              Listed(lens, n, sparse)[i] < Listed(lens, n, sparse)[j]
  {
    if n > 0 { ListedAll(lens, n - 1, sparse); }
  }

  lemma {:induction false} ListedSparse(lens: seq<nat>, n: nat)
    requires n <= |lens|
    ensures Listed(lens, n, true) == CodedSymbols(lens, n)
  {
    if n > 0 { ListedSparse(lens, n - 1); }
  }

  function Addresses(addr: seq<nat>, symbols: seq<nat>): seq<nat>
    requires forall m :: 0 <= m < |symbols| ==> symbols[m] < |addr|
  {
    seq(|symbols|, m requires 0 <= m < |symbols| => addr[symbols[m]])
  }

  lemma AddressesDistinct(lens: seq<nat>, addr: seq<nat>, sparse: bool)
    requires IsCode(lens, addr)
    ensures Distinct(Addresses(addr, Listed(lens, |lens|, sparse)))
  {
    var symbols := Listed(lens, |lens|, sparse);
    ListedAll(lens, |lens|, sparse);
    forall i, j | 0 <= i < j < |symbols| ensures addr[symbols[i]] != addr[symbols[j]] {
      assert Disjoint(addr[symbols[i]], lens[symbols[i]], addr[symbols[j]], lens[symbols[j]]);
    }
  }

  /** Position `x` of the sorted tables belongs to symbol `values[x]`. */
  ghost predicate SortedOk(sorted: seq<nat>, values: seq<nat>, lens: seq<nat>, addr: seq<nat>, sparse: bool)
    requires |addr| == |lens|
  {
    && |sorted| == |values| + 1 && sorted[|values|] == SENTINEL && Ascending(sorted[..|values|])
    && (forall x :: 0 <= x < |values| ==>
          values[x] < |lens| && Included(sparse, lens[values[x]]) && sorted[x] == addr[values[x]])
    && (forall v :: 0 <= v < |lens| && Included(sparse, lens[v]) ==> v in values)
  }

  lemma AddressesSnoc(addr: seq<nat>, symbols: seq<nat>, v: nat)
    requires (forall m :: 0 <= m < |symbols| ==> symbols[m] < |addr|) && v < |addr|
    ensures Addresses(addr, symbols + [v]) == Addresses(addr, symbols) + [addr[v]]
  {
  }

  method CollectDense(lens: seq<nat>, t: Tables, ghost addr: seq<nat>) returns (codes: seq<nat>)
    requires IsCode(lens, addr) && TablesHold(t, false, lens, addr)
    ensures codes == Addresses(addr, Listed(lens, |lens|, false))
  {
    codes := [];
    for i := 0 to |lens|
      invariant codes == Addresses(addr, Listed(lens, i, false))
    {
      if Included(false, lens[i]) {
        Restore(addr[i], lens[i]);
        AddressesSnoc(addr, Listed(lens, i, false), i);
        codes := codes + [BitReverse(t.codewords[i])];
      } else {
        assert Listed(lens, i + 1, false) == Listed(lens, i, false) + [] == Listed(lens, i, false);
      }
    }
  }

  method CollectSparse(lens: seq<nat>, t: Tables, ghost addr: seq<nat>) returns (codes: seq<nat>)
    requires IsCode(lens, addr) && TablesHold(t, true, lens, addr)
    ensures codes == Addresses(addr, Listed(lens, |lens|, true))
  {
    codes := [];
    ListedSparse(lens, |lens|);
    for i := 0 to |t.values|
      invariant codes == Addresses(addr, t.values[..i])
    {
      Restore(addr[t.values[i]], lens[t.values[i]]);
      AddressesSnoc(addr, t.values[..i], t.values[i]);
      TakeSnoc(t.values, i);
      codes := codes + [BitReverse(t.codewords[i])];
    }
    assert t.values[..|t.values|] == t.values;
  }

  /** Reversing a stored codeword gives the address back. */
  lemma Restore(a: nat, l: nat)
    requires 1 <= l <= 31 && IsNode(a, l)
    ensures Reverse(a, 32) < WORD && BitReverse(Reverse(a, 32)) == a
  {
    Pow2Values();
    ReverseBound(a, 32);
    BitReverseReverses(Reverse(a, 32));
    ReverseInvolution(a, 32);
    LowSmall(a, 32);
  }

  method ComputeSorted(lens: seq<nat>, sparse: bool, t: Tables, ghost addr: seq<nat>)
    returns (sorted: seq<nat>, values: seq<nat>, lengths: seq<nat>)
    requires IsCode(lens, addr) && TablesHold(t, sparse, lens, addr) && Listed(lens, |lens|, sparse) != []
    ensures SortedOk(sorted, values, lens, addr, sparse)
    ensures |lengths| == |values| && forall x :: 0 <= x < |values| ==> lengths[x] == lens[values[x]]
  {
    var codes;
    if !sparse {
      codes := CollectDense(lens, t, addr);
    } else {
      codes := CollectSparse(lens, t, addr);
    }
    AddressesDistinct(lens, addr, sparse);
    var order := Sort(codes);
    sorted := order + [SENTINEL];
    values, lengths := PlaceValues(lens, sparse, t, order, addr);
    AllPlaced(order, values, lengths, lens, addr, sparse);
  }

  /** The sorted codewords are those of the listed symbols. */
  ghost predicate OrderOk(order: seq<nat>, lens: seq<nat>, addr: seq<nat>, sparse: bool)
    requires |addr| == |lens|
  {
    Ascending(order) && forall v :: v in order <==> v in Addresses(addr, Listed(lens, |lens|, sparse))
  }

  // Looks every listed codeword up in the sorted list to note whose it is.
  method PlaceValues(lens: seq<nat>, sparse: bool, t: Tables, order: seq<nat>, ghost addr: seq<nat>)
    returns (values: seq<nat>, lengths: seq<nat>)
    requires IsCode(lens, addr) && TablesHold(t, sparse, lens, addr) && order != []
    requires OrderOk(order, lens, addr, sparse)
    ensures |values| == |lengths| == |order|
    ensures Placed(order, values, lengths, lens, addr, Listed(lens, |lens|, sparse))
  {
    values, lengths := seq(|order|, _ => 0), seq(|order|, _ => 0);
    var len := if sparse then |t.values| else |lens|;
    var i := 0;
    while i < len
      invariant 0 <= i <= len && |values| == |lengths| == |order|
      invariant Placed(order, values, lengths, lens, addr, DoneSymbols(lens, sparse, t, i))
    {
      values, lengths := PlaceEntry(lens, sparse, t, order, i, values, lengths, addr);
      i := i + 1;
    }
    DoneAll(lens, sparse, t);
  }

  method PlaceEntry(lens: seq<nat>, sparse: bool, t: Tables, order: seq<nat>, i: nat, values0: seq<nat>,
                    lengths0: seq<nat>, ghost addr: seq<nat>)
    returns (values: seq<nat>, lengths: seq<nat>)
    requires IsCode(lens, addr) && TablesHold(t, sparse, lens, addr) && order != []
    requires OrderOk(order, lens, addr, sparse)
    requires i < (if sparse then |t.values| else |lens|) && |values0| == |lengths0| == |order|
    requires Placed(order, values0, lengths0, lens, addr, DoneSymbols(lens, sparse, t, i))
    ensures |values| == |lengths| == |order|
    ensures Placed(order, values, lengths, lens, addr, DoneSymbols(lens, sparse, t, i + 1))
  {
    var symbol := if sparse then t.values[i] else i;
    values, lengths := values0, lengths0;
    DoneNext(lens, sparse, t, i);
    if Included(sparse, lens[symbol]) {
      ghost var done := DoneSymbols(lens, sparse, t, i);
      EntryAddress(lens, sparse, t, addr, i, symbol);
      OwnAddress(lens, addr, sparse, done, symbol);
      values, lengths := PlaceOne(order, values, lengths, BitReverse(t.codewords[i]), symbol, lens, sparse, addr, done);
    }
  }

  lemma EntryAddress(lens: seq<nat>, sparse: bool, t: Tables, addr: seq<nat>, i: nat, symbol: nat)
    requires IsCode(lens, addr) && TablesHold(t, sparse, lens, addr) && i < if sparse then |t.values| else |lens|
    requires symbol == (if sparse then t.values[i] else i) && symbol < |lens| && Included(sparse, lens[symbol])
    ensures t.codewords[i] < WORD && BitReverse(t.codewords[i]) == addr[symbol]
  {
    Restore(addr[symbol], lens[symbol]);
  }

  lemma OwnAddress(lens: seq<nat>, addr: seq<nat>, sparse: bool, done: seq<nat>, symbol: nat)
    requires IsCode(lens, addr) && symbol < |lens| && Included(sparse, lens[symbol])
    requires forall m :: 0 <= m < |done| ==> done[m] < |lens| && Included(sparse, lens[done[m]])
    ensures forall m :: 0 <= m < |done| ==> done[m] == symbol || addr[done[m]] != addr[symbol]
  {
  }

  method PlaceOne(order: seq<nat>, values0: seq<nat>, lengths0: seq<nat>, code: nat, symbol: nat, lens: seq<nat>,
                  sparse: bool, ghost addr: seq<nat>, ghost done: seq<nat>)
    returns (values: seq<nat>, lengths: seq<nat>)
    requires |addr| == |lens| && order != [] && OrderOk(order, lens, addr, sparse)
    requires symbol < |lens| && Included(sparse, lens[symbol]) && code == addr[symbol]
    requires |values0| == |lengths0| == |order| && (forall m :: 0 <= m < |done| ==> done[m] < |lens|)
    requires Placed(order, values0, lengths0, lens, addr, done)
    requires forall m :: 0 <= m < |done| ==> done[m] == symbol || addr[done[m]] != code
    ensures |values| == |lengths| == |order| && Placed(order, values, lengths, lens, addr, done + [symbol])
  {
    assert (order + [SENTINEL])[..|order|] == order;
    var x := Search(order + [SENTINEL], |order|, code);
    FoundExactly(order, code, x, lens, addr, sparse, symbol);
    values, lengths := values0[x := symbol], lengths0[x := lens[symbol]];
  }

  // The listed symbols among the first `i` table entries.
  ghost function DoneSymbols(lens: seq<nat>, sparse: bool, t: Tables, i: nat): (r: seq<nat>)
    requires t.values == CodedSymbols(lens, |lens|) || !sparse
    requires i <= if sparse then |t.values| else |lens|
    ensures forall m :: 0 <= m < |r| ==> r[m] < |lens| && Included(sparse, lens[r[m]])
  {
    if sparse then t.values[..i] else Listed(lens, i, sparse)
  }

  lemma DoneNext(lens: seq<nat>, sparse: bool, t: Tables, i: nat)
    requires t.values == CodedSymbols(lens, |lens|) || !sparse
    requires i < if sparse then |t.values| else |lens|
    ensures var symbol := if sparse then t.values[i] else i;
      && symbol < |lens| && (sparse ==> Included(sparse, lens[symbol]))
      && DoneSymbols(lens, sparse, t, i + 1)
         == DoneSymbols(lens, sparse, t, i) + if Included(sparse, lens[symbol]) then [symbol] else []
  {
    if sparse {
      TakeSnoc(t.values, i);
    } else {
      ListedSnoc(lens, i, sparse);
    }
  }

  lemma TakeSnoc(s: seq<nat>, i: nat)
    requires i < |s|
    ensures s[..i + 1] == s[..i] + [s[i]]
  {
  }

  lemma ListedSnoc(lens: seq<nat>, i: nat, sparse: bool)
    requires i < |lens|
    ensures Listed(lens, i + 1, sparse) == Listed(lens, i, sparse) + if Included(sparse, lens[i]) then [i] else []
  {
  }

  lemma DoneAll(lens: seq<nat>, sparse: bool, t: Tables)
    requires t.values == CodedSymbols(lens, |lens|) || !sparse
    ensures DoneSymbols(lens, sparse, t, if sparse then |t.values| else |lens|) == Listed(lens, |lens|, sparse)
  {
    if sparse {
      ListedSparse(lens, |lens|);
      assert t.values[..|t.values|] == t.values;
    }
  }

  ghost predicate Placed(order: seq<nat>, values: seq<nat>, lengths: seq<nat>, lens: seq<nat>, addr: seq<nat>,
                         done: seq<nat>)
    requires |values| == |lengths| == |order| && |addr| == |lens|
    requires forall m :: 0 <= m < |done| ==> done[m] < |lens|
  {
    forall m, x :: 0 <= m < |done| && 0 <= x < |order| && order[x] == addr[done[m]] ==>
      values[x] == done[m] && lengths[x] == lens[done[m]]
  }

  /** The search for a listed codeword finds it. */
  lemma FoundExactly(order: seq<nat>, code: nat, x: nat, lens: seq<nat>, addr: seq<nat>, sparse: bool, symbol: nat)
    requires |addr| == |lens| && OrderOk(order, lens, addr, sparse)
    requires symbol < |lens| && Included(sparse, lens[symbol]) && code == addr[symbol]
    requires x < |order| && (x > 0 ==> order[x] <= code) && forall y :: x < y < |order| ==> code < order[y]
    ensures order[x] == code
    ensures forall y :: 0 <= y < |order| && order[y] == code ==> y == x
  {
    var symbols := Listed(lens, |lens|, sparse);
    ListedAll(lens, |lens|, sparse);
    var m :| 0 <= m < |symbols| && symbols[m] == symbol;
    assert Addresses(addr, symbols)[m] == code;
    assert code in order;
    var y :| 0 <= y < |order| && order[y] == code;
  }

  lemma AllPlaced(order: seq<nat>, values: seq<nat>, lengths: seq<nat>, lens: seq<nat>, addr: seq<nat>, sparse: bool)
    requires |values| == |lengths| == |order| && |addr| == |lens| && OrderOk(order, lens, addr, sparse)
    requires Placed(order, values, lengths, lens, addr, Listed(lens, |lens|, sparse))
    ensures SortedOk(order + [SENTINEL], values, lens, addr, sparse)
    ensures forall x :: 0 <= x < |order| ==> lengths[x] == lens[values[x]]
  {
    var sorted := order + [SENTINEL];
    assert sorted[..|order|] == order;
    forall x | 0 <= x < |order|
      ensures values[x] < |lens| && Included(sparse, lens[values[x]]) && sorted[x] == addr[values[x]]
      ensures lengths[x] == lens[values[x]]
    {
      WhoseCodeword(order, values, lengths, lens, addr, sparse, x);
    }
    forall v | 0 <= v < |lens| && Included(sparse, lens[v]) ensures v in values {
      WhereSymbol(order, values, lengths, lens, addr, sparse, v);
    }
  }

  lemma WhoseCodeword(order: seq<nat>, values: seq<nat>, lengths: seq<nat>, lens: seq<nat>, addr: seq<nat>,
                      sparse: bool, x: nat)
    requires |values| == |lengths| == |order| && |addr| == |lens| && OrderOk(order, lens, addr, sparse) && x < |order|
    requires Placed(order, values, lengths, lens, addr, Listed(lens, |lens|, sparse))
    ensures values[x] < |lens| && Included(sparse, lens[values[x]]) && order[x] == addr[values[x]]
    ensures lengths[x] == lens[values[x]]
  {
    var symbols := Listed(lens, |lens|, sparse);
    assert order[x] in Addresses(addr, symbols);
    var m :| 0 <= m < |symbols| && Addresses(addr, symbols)[m] == order[x];
    assert order[x] == addr[symbols[m]];
  }

  lemma {:induction false} WhereSymbol(order: seq<nat>, values: seq<nat>, lengths: seq<nat>, lens: seq<nat>,
                                       addr: seq<nat>, sparse: bool, v: nat)
    requires |values| == |lengths| == |order| && |addr| == |lens| && OrderOk(order, lens, addr, sparse)
    requires v < |lens| && Included(sparse, lens[v])
    requires Placed(order, values, lengths, lens, addr, Listed(lens, |lens|, sparse))
    ensures v in values
  {
    var symbols := Listed(lens, |lens|, sparse);
    ListedAll(lens, |lens|, sparse);
    var m :| 0 <= m < |symbols| && symbols[m] == v;
    assert Addresses(addr, symbols)[m] in order;
    var x :| 0 <= x < |order| && order[x] == Addresses(addr, symbols)[m];
    assert order[x] == addr[symbols[m]];
    assert values[x] == v;
  }
}
