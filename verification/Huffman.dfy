/** Building a codebook from its codeword lengths, and decoding symbols with it. */
module Huffman {
  import opened Bits
  import opened Codewords
  import opened Codebook
  import opened Options
  import opened OggPackets
  import opened BitReader
  import PacketReader

  /** In a sparse book the lengths and the values go by the sorted order; in a dense one
      the lengths and the codewords go by the symbol. */
  datatype Book = Book(entries: nat, sparse: bool, lengths: seq<nat>, codewords: Option<seq<nat>>,
                       sorted: Option<seq<nat>>, values: seq<nat>, fast: seq<int>)

  function AtMost(n: nat, limit: nat): nat { if n > limit then limit else n }

  ghost predicate DenseOk(c: Book, lens: seq<nat>, addr: seq<nat>)
    requires |addr| == |lens|
  {
    && c.lengths == lens && c.codewords.Some? && |c.codewords.value| == |lens|
    && (forall j :: 0 <= j < |lens| && lens[j] != NO_CODE ==> c.codewords.value[j] == Reverse(addr[j], 32))
    && FastOk(c.fast, c.codewords.value, lens, AtMost(|lens|, FAST_LIMIT))
  }

  function ReversedAll(sorted: seq<nat>, n: nat): seq<nat>
    requires n <= |sorted|
  {
    seq(n, x requires 0 <= x < n => Reverse(sorted[x], 32))
  }

  function SparseCodes(c: Book): (codes: seq<nat>)
    requires if c.sorted.None? then c.values == [] else |c.values| <= |c.sorted.value|
    ensures |codes| == |c.values|
  {
    if c.sorted.None? then [] else ReversedAll(c.sorted.value, |c.values|)
  }

  ghost predicate SparseOk(c: Book, lens: seq<nat>, addr: seq<nat>)
    requires |addr| == |lens|
  {
    && c.codewords.None? && |c.lengths| == |c.values|
    && (forall x :: 0 <= x < |c.values| ==> c.values[x] < |lens| && c.lengths[x] == lens[c.values[x]] <= 31)
    && (if c.sorted.None? then c.values == [] else |c.values| <= |c.sorted.value|)
    && FastOk(c.fast, SparseCodes(c), c.lengths, AtMost(|c.values|, FAST_LIMIT))
  }

  /** The tables of the book are those of the code. */
  ghost predicate Represents(c: Book, lens: seq<nat>, addr: seq<nat>) {
    && IsCode(lens, addr) && c.entries == |lens|
    && (if c.sparse then SparseOk(c, lens, addr) else DenseOk(c, lens, addr))
    && (c.sorted.Some? <==> Listed(lens, |lens|, c.sparse) != [])
    && (c.sorted.Some? ==> SortedOk(c.sorted.value, c.values, lens, addr, c.sparse))
  }

  // ----- construction -----

  method CountCoded(lens: seq<nat>) returns (total: nat)
    ensures total == |CodedSymbols(lens, |lens|)|
  {
    total := 0;
    for i := 0 to |lens|
      invariant total == |CodedSymbols(lens, i)|
    {
      if lens[i] != NO_CODE { total := total + 1; }
    }
  }

  /** Fails exactly when the lengths are overfull; otherwise the book is one for the lowest
      assignment.  A sparse book with a quarter of its symbols coded is built as a dense one. */
  method BuildCodebook(lens: seq<nat>, sparse: bool) returns (book: Option<Book>, ghost addr: seq<nat>)
    requires LengthsOk(lens)
    ensures book.Some? <==> Kraft(lens, |lens|) <= WORD
    ensures book.Some? ==> |addr| == |lens| && LowestAssignment(lens, addr) && Represents(book.value, lens, addr)
    ensures book.Some? ==> (book.value.sparse <==> sparse && |CodedSymbols(lens, |lens|)| < |lens| / 4)
    ensures book.Some? && Kraft(lens, |lens|) == WORD ==> Complete(lens, addr)
  {
    var total := CountCoded(lens);
    var kept := sparse && total < |lens| / 4;
    var ok, t;
    ok, t, addr := ComputeCodewords(lens, kept);
    if !ok { return None, addr; }
    var c := MakeBook(lens, kept, t, addr);
    book := Some(c);
  }

  method MakeBook(lens: seq<nat>, sparse: bool, t: Tables, ghost addr: seq<nat>) returns (c: Book)
    requires IsCode(lens, addr) && TablesHold(t, sparse, lens, addr)
    ensures c.sparse == sparse && Represents(c, lens, addr)
  {
    var sortedCount := CountListed(lens, sparse);
    var sorted, values, lengths := None, [], [];
    if sortedCount > 0 {
      var order;
      order, values, lengths := ComputeSorted(lens, sparse, t, addr);
      sorted := Some(order);
    }
    if sparse {
      c := SparseBook(lens, sorted, values, lengths, addr);
    } else {
      CodesFit(lens, addr, t);
      var fast := ComputeAccelerated(t.codewords, lens);
      c := Book(|lens|, false, lens, Some(t.codewords), sorted, values, fast);
    }
  }

  method CountListed(lens: seq<nat>, sparse: bool) returns (n: nat)
    ensures n == |Listed(lens, |lens|, sparse)|
  {
    n := 0;
    for i := 0 to |lens|
      invariant n == |Listed(lens, i, sparse)|
    {
      if Included(sparse, lens[i]) { n := n + 1; }
    }
  }

  lemma CodesFit(lens: seq<nat>, addr: seq<nat>, t: Tables)
    requires IsCode(lens, addr) && TablesHold(t, false, lens, addr)
    ensures forall i :: 0 <= i < |lens| ==> lens[i] == NO_CODE || t.codewords[i] < Pow2(lens[i])
  {
    forall i | 0 <= i < |lens| ensures lens[i] == NO_CODE || t.codewords[i] < Pow2(lens[i]) {
      if lens[i] != NO_CODE { CodeOfNode(addr[i], lens[i]); }
    }
  }

  method SparseBook(lens: seq<nat>, sorted: Option<seq<nat>>, values: seq<nat>, lengths: seq<nat>,
                    ghost addr: seq<nat>) returns (c: Book)
    requires IsCode(lens, addr) && |values| == |lengths|
    requires sorted.Some? <==> Listed(lens, |lens|, true) != []
    requires sorted.Some? ==> SortedOk(sorted.value, values, lens, addr, true)
    requires sorted.None? ==> values == []
    requires forall x :: 0 <= x < |values| ==> values[x] < |lens| && lengths[x] == lens[values[x]]
    ensures c.sparse && Represents(c, lens, addr)
  {
    var codes := [];
    if sorted.Some? {
      codes := RestoreCodes(sorted.value, values, lens, addr);
    }
    var fast := ComputeAccelerated(codes, lengths);
    c := Book(|lens|, true, lengths, None, sorted, values, fast);
    SparseRepresents(c, codes, lens, addr);
  }

  lemma SparseRepresents(c: Book, codes: seq<nat>, lens: seq<nat>, addr: seq<nat>)
    requires IsCode(lens, addr) && c.entries == |lens| && c.sparse && c.codewords.None?
    requires |c.values| == |c.lengths| == |codes|
    requires c.sorted.Some? <==> Listed(lens, |lens|, true) != []
    requires c.sorted.Some? ==>
              SortedOk(c.sorted.value, c.values, lens, addr, true) && codes == ReversedAll(c.sorted.value, |c.values|)
    requires c.sorted.None? ==> c.values == []
    requires forall x :: 0 <= x < |c.values| ==> c.values[x] < |lens| && c.lengths[x] == lens[c.values[x]]
    requires FastOk(c.fast, codes, c.lengths, AtMost(|codes|, FAST_LIMIT))
    ensures Represents(c, lens, addr)
  {
    assert codes == SparseCodes(c);
  }

  // The sorted codewords turned back into the order of the bits in the stream.
  method RestoreCodes(sorted: seq<nat>, values: seq<nat>, lens: seq<nat>, ghost addr: seq<nat>)
    returns (codes: seq<nat>)
    requires IsCode(lens, addr) && SortedOk(sorted, values, lens, addr, true)
    ensures codes == ReversedAll(sorted, |values|)
    ensures forall x :: 0 <= x < |values| ==> codes[x] < Pow2(lens[values[x]])
  {
    codes := [];
    for x := 0 to |values|
      invariant |codes| == x && forall y :: 0 <= y < x ==> codes[y] == Reverse(sorted[y], 32) < Pow2(lens[values[y]])
    {
      NodeReversed(sorted[x], lens[values[x]]);
      codes := codes + [BitReverse(sorted[x])];
    }
  }

  lemma NodeReversed(a: nat, l: nat)
    requires 1 <= l <= 31 && IsNode(a, l)
    ensures a < WORD && BitReverse(a) == Reverse(a, 32) < Pow2(l)
  {
    CodeOfNode(a, l);
    BitReverseReverses(a);
  }

  // ----- decoding, on values -----

  /** The codeword of symbol `v` is how the bits start. */
  ghost predicate Starts(bits: seq<bool>, lens: seq<nat>, addr: seq<nat>, v: int)
    requires |addr| == |lens|
  {
    0 <= v < |lens| && lens[v] != NO_CODE && lens[v] <= |bits| && FromBits(bits[..lens[v]]) == Reverse(addr[v], 32)
  }

  /** The fast table has no room for the symbol, and the search that follows covers long
      codewords only. */
  predicate Hidden(lens: seq<nat>, sparse: bool, v: int) {
    !sparse && FAST_LIMIT <= v < |lens| && lens[v] <= FAST_LENGTH && Listed(lens, |lens|, false) != []
  }

  /** The accumulator shows the start of the stream. */
  lemma StartsShown(bits: seq<bool>, acc: nat, valid: nat, rest: seq<byte>, lens: seq<nat>, addr: seq<nat>, v: nat)
    requires |addr| == |lens| && acc < Pow2(valid) && bits == StreamBits(acc, valid, rest)
    requires v < |lens| && lens[v] != NO_CODE && lens[v] <= valid
    ensures Starts(bits, lens, addr, v) <==> SymbolMatches(lens, addr, v, acc)
    ensures StreamBits(Shr(acc, lens[v]), valid - lens[v], rest) == bits[lens[v]..]
  {
    TakeOut(acc, valid, lens[v], rest);
  }

  /** The symbol at an index of the tables. */
  function SymbolAt(c: Book, x: int): int
    requires c.sparse ==> x < |c.values|
  {
    if x < 0 then -1 else if c.sparse then c.values[x] else x
  }

  predicate IndexOk(c: Book, x: int) {
    -1 <= x < |c.lengths| && (c.sparse ==> x < |c.values|)
  }

  /** An entry of the fast table names the symbol whose short codeword the word starts with. */
  lemma FastHit(c: Book, lens: seq<nat>, addr: seq<nat>, word: nat)
    requires Represents(c, lens, addr) && |c.fast| == FAST_SIZE && Low(word, FAST_LENGTH) < FAST_SIZE
    requires c.fast[Low(word, FAST_LENGTH)] != -1
    ensures var x := c.fast[Low(word, FAST_LENGTH)];
      && IndexOk(c, x) && 0 <= x < FAST_LIMIT && SymbolMatches(lens, addr, SymbolAt(c, x), word)
      && c.lengths[x] == lens[SymbolAt(c, x)] <= FAST_LENGTH
  {
    var z := Low(word, FAST_LENGTH);
    var x := c.fast[z];
    LowLow(word, FAST_LENGTH, c.lengths[x]);
    if c.sparse { assert c.sorted.value[x] == addr[c.values[x]]; }
  }

  /** A short codeword is found in the fast table unless its symbol is hidden or only sorted. */
  lemma FastMiss(c: Book, lens: seq<nat>, addr: seq<nat>, word: nat, v: nat)
    requires Represents(c, lens, addr) && |c.fast| == FAST_SIZE && Low(word, FAST_LENGTH) < FAST_SIZE
    requires SymbolMatches(lens, addr, v, word) && c.fast[Low(word, FAST_LENGTH)] == -1
    ensures lens[v] <= FAST_LENGTH && !c.sparse ==> v >= FAST_LIMIT
    ensures lens[v] <= FAST_LENGTH && c.sparse ==> |c.values| > FAST_LIMIT
  {
    if lens[v] <= FAST_LENGTH {
      var z := Low(word, FAST_LENGTH);
      LowLow(word, FAST_LENGTH, lens[v]);
      if c.sparse {
        ListedAll(lens, |lens|, true);
        assert c.sorted.Some? && v in c.values;
        var x :| 0 <= x < |c.values| && c.values[x] == v;
        if x < FAST_LIMIT { assert Matches(z, SparseCodes(c)[x], c.lengths[x]); }
      } else if v < FAST_LIMIT {
        assert Matches(z, c.codewords.value[v], lens[v]);
      }
    }
  }

  /** No symbol is listed twice. */
  lemma ValuesFit(c: Book, lens: seq<nat>, addr: seq<nat>)
    requires Represents(c, lens, addr) && c.sorted.Some?
    ensures |c.values| <= |lens|
  {
    AscendingPrefix(c.sorted.value, |c.values|);
    DistinctFit(c.values, |lens|);
  }

  lemma {:induction false} DistinctFit(values: seq<nat>, n: nat)
    requires forall i :: 0 <= i < |values| ==> values[i] < n
    requires forall i, j :: 0 <= i < j < |values| ==> values[i] != values[j]
    ensures |values| <= n
    decreases n
  {
    assert values != [] ==> values[0] < n;
    if n > 0 && exists i :: 0 <= i < |values| && values[i] == n - 1 {
      var i :| 0 <= i < |values| && values[i] == n - 1;
      DistinctFit(values[..i] + values[i + 1..], n - 1);
    } else if n > 0 {
      DistinctFit(values, n - 1);
    }
  }

  /** `y` is where the search for the mirrored word `code` ends. */
  predicate SearchEnds(sorted: seq<nat>, n: nat, code: nat, y: nat)
    requires n <= |sorted|
  {
    y < n && (y > 0 ==> sorted[y] <= code) && forall j :: y < j < n ==> code < sorted[j]
  }

  lemma AscendingPrefix(s: seq<nat>, n: nat)
    requires n <= |s| && Ascending(s[..n])
    ensures forall i, j :: 0 <= i < j < n ==> s[i] < s[j]
  {
    assert forall i :: 0 <= i < n ==> s[..n][i] == s[i];
  }

  /** Binary search finds the codeword that the word starts with. */
  lemma SearchFinds(c: Book, lens: seq<nat>, addr: seq<nat>, code: nat, y: nat, v: nat)
    requires IsCode(lens, addr) && c.sorted.Some? && SortedOk(c.sorted.value, c.values, lens, addr, c.sparse)
    requires SearchEnds(c.sorted.value, |c.values|, code, y)
    requires v < |lens| && Included(c.sparse, lens[v]) && Inside(code, addr[v], lens[v])
    ensures c.values[y] == v
  {
    var p :| 0 <= p < |c.values| && c.values[p] == v;
    var sorted := c.sorted.value;
    AscendingPrefix(sorted, |c.values|);
    assert y >= p;
  }

  lemma SearchHits(c: Book, lens: seq<nat>, addr: seq<nat>, acc: nat, y: nat, v: nat)
    requires Represents(c, lens, addr) && c.sorted.Some? && acc < WORD
    requires SearchEnds(c.sorted.value, |c.values|, Reverse(acc, 32), y)
    requires SymbolMatches(lens, addr, v, acc) && Included(c.sparse, lens[v])
    ensures c.values[y] == v
  {
    MatchIsInside(acc, addr[v], lens[v]);
    SearchFinds(c, lens, addr, Reverse(acc, 32), y, v);
  }

  /** Whether the slow decoder searches the sorted codewords or goes through all of them. */
  predicate UsesSearch(c: Book) {
    if c.entries > 8 then c.sorted.Some? else c.codewords.None?
  }

  /** The slow decoder's way of looking covers the symbol. */
  predicate Sees(c: Book, lens: seq<nat>, v: nat)
    requires v < |lens|
  {
    !UsesSearch(c) || Included(c.sparse, lens[v])
  }

  /** The symbol at `x`, if any, has been taken off the stream. */
  ghost predicate TakenOff(c: Book, lens: seq<nat>, bits: seq<bool>, held: nat, x: int, after: seq<bool>) {
    && IndexOk(c, x) && held <= |bits|
    && (x >= 0 ==>
          && 0 <= SymbolAt(c, x) < |lens| && lens[SymbolAt(c, x)] != NO_CODE
          && lens[SymbolAt(c, x)] <= held && after == bits[lens[SymbolAt(c, x)]..])
  }

  /** What the slow decoder achieves with `held` bits in the accumulator. */
  ghost predicate SlowOutcome(c: Book, lens: seq<nat>, addr: seq<nat>, bits: seq<bool>, held: nat, x: int,
                              after: seq<bool>)
    requires |addr| == |lens|
  {
    && TakenOff(c, lens, bits, held, x, after)
    && (forall v :: Starts(bits, lens, addr, v) ==> (SymbolAt(c, x) == v <==> lens[v] <= held && Sees(c, lens, v)))
    && (x >= 0 && (!UsesSearch(c) || MatchListed(c, lens, addr, FromBits(bits[..held]))) ==>
        Starts(bits, lens, addr, SymbolAt(c, x)))
  }

  ghost predicate MatchListed(c: Book, lens: seq<nat>, addr: seq<nat>, word: nat)
    requires |addr| == |lens|
  {
    exists w :: SymbolMatches(lens, addr, w, word) && Included(c.sparse, lens[w])
  }

  lemma HeldWord(acc: nat, valid: nat, rest: seq<byte>)
    requires acc < Pow2(valid)
    ensures valid <= |StreamBits(acc, valid, rest)| && FromBits(StreamBits(acc, valid, rest)[..valid]) == acc
  {
    TakeOut(acc, valid, valid, rest);
    LowSmall(acc, valid);
  }

  /** Only the symbol at `x` can be found, and it is held whole: it is taken off. */
  lemma SlowTaken(c: Book, lens: seq<nat>, addr: seq<nat>, acc: nat, valid: nat, rest: seq<byte>, x: nat, w: nat)
    requires |addr| == |lens| && acc < Pow2(valid) && IndexOk(c, x) && w == SymbolAt(c, x)
    requires w < |lens| && lens[w] != NO_CODE && lens[w] <= valid && Sees(c, lens, w)
    requires forall v :: Starts(StreamBits(acc, valid, rest), lens, addr, v) && lens[v] <= valid && Sees(c, lens, v) ==>
               v == w
    requires !UsesSearch(c) || MatchListed(c, lens, addr, acc) ==> SymbolMatches(lens, addr, w, acc)
    ensures SlowOutcome(c, lens, addr, StreamBits(acc, valid, rest), valid, x,
                        StreamBits(Shr(acc, lens[w]), valid - lens[w], rest))
  {
    HeldWord(acc, valid, rest);
    StartsShown(StreamBits(acc, valid, rest), acc, valid, rest, lens, addr, w);
  }

  /** Nothing that is held whole can be found: giving up is right. */
  lemma SlowGivenUp(c: Book, lens: seq<nat>, addr: seq<nat>, acc: nat, valid: nat, rest: seq<byte>)
    requires |addr| == |lens| && acc < Pow2(valid)
    requires forall v :: Starts(StreamBits(acc, valid, rest), lens, addr, v) && lens[v] <= valid ==> !Sees(c, lens, v)
    ensures SlowOutcome(c, lens, addr, StreamBits(acc, valid, rest), valid, -1, [])
  {
    HeldWord(acc, valid, rest);
  }

  /** What is seen and held whole is where the search ends. */
  lemma SearchShows(c: Book, lens: seq<nat>, addr: seq<nat>, acc: nat, valid: nat, rest: seq<byte>, y: nat, v: int)
    requires Represents(c, lens, addr) && c.sorted.Some? && UsesSearch(c) && acc < Pow2(valid) && acc < WORD
    requires |c.values| <= |c.sorted.value| && SearchEnds(c.sorted.value, |c.values|, Reverse(acc, 32), y)
    requires Starts(StreamBits(acc, valid, rest), lens, addr, v) && lens[v] <= valid && Sees(c, lens, v)
    ensures v == c.values[y]
  {
    StartsShown(StreamBits(acc, valid, rest), acc, valid, rest, lens, addr, v);
    SearchHits(c, lens, addr, acc, y, v);
  }

  lemma SearchListed(c: Book, lens: seq<nat>, addr: seq<nat>, acc: nat, y: nat)
    requires Represents(c, lens, addr) && c.sorted.Some? && acc < WORD && MatchListed(c, lens, addr, acc)
    requires |c.values| <= |c.sorted.value| && SearchEnds(c.sorted.value, |c.values|, Reverse(acc, 32), y)
    ensures SymbolMatches(lens, addr, c.values[y], acc)
  {
    var v :| SymbolMatches(lens, addr, v, acc) && Included(c.sparse, lens[v]);
    SearchHits(c, lens, addr, acc, y, v);
  }

  /** The slow decoder by binary search; `y` is where the search ends. */
  lemma {:induction false} SearchOutcome(c: Book, lens: seq<nat>, addr: seq<nat>, acc: nat, valid: nat,
                                         rest: seq<byte>, y: nat)
    requires Represents(c, lens, addr) && c.sorted.Some? && UsesSearch(c) && acc < Pow2(valid) && acc < WORD
    requires |c.values| <= |c.sorted.value| && SearchEnds(c.sorted.value, |c.values|, Reverse(acc, 32), y)
    ensures var bits, l := StreamBits(acc, valid, rest), lens[c.values[y]];
      var x := if c.sparse then y else c.values[y];
      && x < |c.lengths| && c.lengths[x] == l
      && (l <= valid ==> SlowOutcome(c, lens, addr, bits, valid, x, StreamBits(Shr(acc, l), valid - l, rest)))
      && (l > valid ==> SlowOutcome(c, lens, addr, bits, valid, -1, []))
  {
    var w := c.values[y];
    forall v | Starts(StreamBits(acc, valid, rest), lens, addr, v) && lens[v] <= valid && Sees(c, lens, v)
      ensures v == w
    {
      SearchShows(c, lens, addr, acc, valid, rest, y, v);
    }
    if lens[w] <= valid {
      if MatchListed(c, lens, addr, acc) { SearchListed(c, lens, addr, acc, y); }
      SlowTaken(c, lens, addr, acc, valid, rest, if c.sparse then y else w, w);
    } else {
      SlowGivenUp(c, lens, addr, acc, valid, rest);
    }
  }

  /** The slow decoder by going through all codewords; `x` is the first that matches, if any. */
  lemma ScanOutcome(c: Book, lens: seq<nat>, addr: seq<nat>, acc: nat, valid: nat, rest: seq<byte>, x: int)
    requires Represents(c, lens, addr) && !c.sparse && !UsesSearch(c) && acc < Pow2(valid) && acc < WORD
    requires -1 <= x < |lens| && (x >= 0 ==> SymbolMatches(lens, addr, x, acc))
    requires x == -1 ==> forall v :: 0 <= v < |lens| ==> !SymbolMatches(lens, addr, v, acc)
    ensures var bits := StreamBits(acc, valid, rest);
      && (x >= 0 && lens[x] <= valid ==>
            SlowOutcome(c, lens, addr, bits, valid, x, StreamBits(Shr(acc, lens[x]), valid - lens[x], rest)))
      && (x < 0 || lens[x] > valid ==> SlowOutcome(c, lens, addr, bits, valid, -1, []))
  {
    forall v | Starts(StreamBits(acc, valid, rest), lens, addr, v) && lens[v] <= valid ensures v == x {
      StartsShown(StreamBits(acc, valid, rest), acc, valid, rest, lens, addr, v);
      if x >= 0 { UniqueMatch(lens, addr, x, v, acc); }
    }
    if x >= 0 && lens[x] <= valid {
      SlowTaken(c, lens, addr, acc, valid, rest, x, x);
    } else {
      SlowGivenUp(c, lens, addr, acc, valid, rest);
    }
  }

  /** A book with neither table has no codewords at all. */
  lemma EmptyOutcome(c: Book, lens: seq<nat>, addr: seq<nat>, bits: seq<bool>, held: nat)
    requires Represents(c, lens, addr) && c.codewords.None? && c.sorted.None? && held <= |bits|
    ensures SlowOutcome(c, lens, addr, bits, held, -1, [])
  {
    ListedAll(lens, |lens|, true);
  }

  /** What decoding achieves: the symbol whose codeword starts the bits, unless its codeword
      is longer than what is held or it is hidden; and no other symbol, if the code is
      complete or there is nothing to search. */
  ghost predicate Outcome(c: Book, lens: seq<nat>, addr: seq<nat>, bits: seq<bool>, held: nat, x: int, after: seq<bool>)
    requires |addr| == |lens|
  {
    && TakenOff(c, lens, bits, held, x, after)
    && (forall v :: Starts(bits, lens, addr, v) ==>
        (SymbolAt(c, x) == v <==> lens[v] <= held && !Hidden(lens, c.sparse, v)))
    && (x >= 0 && (c.sorted.None? || (Complete(lens, addr) && |lens| <= FAST_LIMIT)) ==>
        Starts(bits, lens, addr, SymbolAt(c, x)))
  }

  /** The accumulator holds enough for the fast table, or all there is. */
  predicate Ready(acc: nat, valid: nat, rest: seq<byte>) {
    acc < Pow2(valid) && acc < WORD && (valid >= FAST_LENGTH || rest == [])
  }

  lemma FastIndex(acc: nat)
    ensures Low(acc, FAST_LENGTH) < FAST_SIZE
  {
    var k := FAST_LENGTH;
    SplitAt(acc, k);
    Pow2Values();
  }

  lemma HeldFits(acc: nat, valid: nat, rest: seq<byte>)
    ensures valid <= Prepared(valid, |rest|) <= |StreamBits(acc, valid, rest)|
    ensures rest == [] ==> Prepared(valid, |rest|) == valid == |StreamBits(acc, valid, rest)|
  {
    BytesBitsLength(rest);
  }

  /** Taking the symbol at `x` is right if there are enough bits, and giving up if not. */
  ghost predicate HitOutcomes(c: Book, lens: seq<nat>, addr: seq<nat>, acc: nat, valid: nat, rest: seq<byte>, x: nat)
    requires |addr| == |lens| && IndexOk(c, x)
  {
    var bits, held, l := StreamBits(acc, valid, rest), Prepared(valid, |rest|), c.lengths[x];
    && (l <= valid ==> Outcome(c, lens, addr, bits, held, x, StreamBits(Shr(acc, l), valid - l, rest)))
    && (l > valid ==> Outcome(c, lens, addr, bits, held, -1, []))
  }

  /** A hit in the fast table. */
  lemma FastOutcome(c: Book, lens: seq<nat>, addr: seq<nat>, acc: nat, valid: nat, rest: seq<byte>, x: int)
    requires Represents(c, lens, addr) && Ready(acc, valid, rest)
    requires Low(acc, FAST_LENGTH) < FAST_SIZE == |c.fast| && x == c.fast[Low(acc, FAST_LENGTH)] != -1
    ensures 0 <= x && IndexOk(c, x) && HitOutcomes(c, lens, addr, acc, valid, rest, x)
  {
    FastHit(c, lens, addr, acc);
    HitTaken(c, lens, addr, acc, valid, rest, x, SymbolAt(c, x));
  }

  lemma {:induction false} HitTaken(c: Book, lens: seq<nat>, addr: seq<nat>, acc: nat, valid: nat, rest: seq<byte>,
                                    x: nat, w: int)
    requires IsCode(lens, addr) && Ready(acc, valid, rest) && IndexOk(c, x) && x < FAST_LIMIT && w == SymbolAt(c, x)
    requires SymbolMatches(lens, addr, w, acc) && c.lengths[x] == lens[w] <= FAST_LENGTH
    ensures HitOutcomes(c, lens, addr, acc, valid, rest, x)
  {
    var bits := StreamBits(acc, valid, rest);
    HeldFits(acc, valid, rest);
    forall v | Starts(bits, lens, addr, v) ensures v == w && lens[v] <= valid {
      ShownIsHit(bits, acc, valid, rest, lens, addr, v, w);
    }
    if lens[w] <= valid { StartsShown(bits, acc, valid, rest, lens, addr, w); }
  }

  lemma ShownIsHit(bits: seq<bool>, acc: nat, valid: nat, rest: seq<byte>, lens: seq<nat>, addr: seq<nat>,
                   v: int, w: int)
    requires IsCode(lens, addr) && Ready(acc, valid, rest) && bits == StreamBits(acc, valid, rest)
    requires Starts(bits, lens, addr, v) && SymbolMatches(lens, addr, w, acc) && lens[w] <= FAST_LENGTH
    ensures v == w && lens[v] <= valid
  {
    if lens[v] <= valid {
      StartsShown(bits, acc, valid, rest, lens, addr, v);
      UniqueMatch(lens, addr, v, w, acc);
    } else {
      HeldFits(acc, valid, rest);
      StartsLonger(bits, acc, valid, rest, lens, addr, v, w);
    }
  }

  /** A longer codeword cannot extend one that is shown. */
  lemma StartsLonger(bits: seq<bool>, acc: nat, valid: nat, rest: seq<byte>, lens: seq<nat>, addr: seq<nat>,
                     v: int, w: int)
    requires IsCode(lens, addr) && acc < Pow2(valid) && bits == StreamBits(acc, valid, rest)
    requires Starts(bits, lens, addr, v) && SymbolMatches(lens, addr, w, acc) && lens[w] <= valid && lens[w] <= lens[v]
    ensures v == w
  {
    var word := FromBits(bits[..lens[v]]);
    WordAgrees(bits, acc, valid, rest, lens[w], lens[v]);
    ShortWord(word, lens[v]);
    UniqueMatch(lens, addr, v, w, word);
  }

  lemma ShortWord(word: nat, l: nat)
    requires word < Pow2(l) && l < 32
    ensures word < WORD && Low(word, l) == word
  {
    Pow2Values();
    Pow2Monotone(l, 32);
    LowSmall(word, l);
  }

  lemma WordAgrees(bits: seq<bool>, acc: nat, valid: nat, rest: seq<byte>, l: nat, held: nat)
    requires acc < Pow2(valid) && bits == StreamBits(acc, valid, rest) && l <= valid && l <= held <= |bits|
    ensures Low(FromBits(bits[..held]), l) == Low(acc, l)
  {
    TakeOut(acc, valid, l, rest);
    PrefixLow(bits, l, held);
  }

  lemma PrefixLow(bits: seq<bool>, l: nat, held: nat)
    requires l <= held <= |bits|
    ensures Low(FromBits(bits[..held]), l) == FromBits(bits[..l])
  {
    var a, b := bits[..l], bits[l..held];
    assert bits[..held] == a + b;
    FromBitsAppend(a, b);
    PartsOf(FromBits(b), FromBits(a), l);
  }

  /** After a miss in the fast table the slow decoder sees everything that is not hidden. */
  lemma MissSees(c: Book, lens: seq<nat>, addr: seq<nat>, acc: nat, valid: nat, rest: seq<byte>, v: int)
    requires Represents(c, lens, addr) && Ready(acc, valid, rest)
    requires Low(acc, FAST_LENGTH) < FAST_SIZE == |c.fast| && c.fast[Low(acc, FAST_LENGTH)] == -1
    requires Starts(StreamBits(acc, valid, rest), lens, addr, v)
    ensures Sees(c, lens, v) <==> !Hidden(lens, c.sparse, v)
  {
    HeldFits(acc, valid, rest);
    if lens[v] <= FAST_LENGTH {
      StartsShown(StreamBits(acc, valid, rest), acc, valid, rest, lens, addr, v);
      FastMiss(c, lens, addr, acc, v);
    }
  }

  /** In a complete code the slow decoder's word starts with a codeword that it sees. */
  lemma MissListed(c: Book, lens: seq<nat>, addr: seq<nat>, acc: nat, valid: nat, rest: seq<byte>, held: nat)
    requires Represents(c, lens, addr) && Ready(acc, valid, rest) && Complete(lens, addr) && |lens| <= FAST_LIMIT
    requires Low(acc, FAST_LENGTH) < FAST_SIZE == |c.fast| && c.fast[Low(acc, FAST_LENGTH)] == -1
    requires valid <= held <= |StreamBits(acc, valid, rest)| && held <= 32 && (rest == [] ==> held == valid)
    ensures MatchListed(c, lens, addr, FromBits(StreamBits(acc, valid, rest)[..held]))
  {
    var bits := StreamBits(acc, valid, rest);
    var word := FromBits(bits[..held]);
    HeldInWord(word, held);
    var j := CompleteMatch(lens, addr, word);
    if !c.sparse && lens[j] <= FAST_LENGTH {
      if rest == [] { HeldWord(acc, valid, rest); } else { WordAgrees(bits, acc, valid, rest, lens[j], held); }
      FastMiss(c, lens, addr, acc, j);
    }
  }

  lemma HeldInWord(word: nat, held: nat)
    requires word < Pow2(held) && held <= 32
    ensures word < WORD
  {
    Pow2Values();
    if held < 32 { Pow2Monotone(held, 32); }
  }

  lemma CompleteMatch(lens: seq<nat>, addr: seq<nat>, word: nat) returns (j: nat)
    requires IsCode(lens, addr) && Complete(lens, addr) && word < WORD
    ensures SymbolMatches(lens, addr, j, word)
  {
    Pow2Values();
    ReverseBound(word, 32);
    assert InCode(lens, addr, Reverse(word, 32));
    j :| 0 <= j < |addr| && lens[j] != NO_CODE && Inside(Reverse(word, 32), addr[j], lens[j]);
    MatchIsInside(word, addr[j], lens[j]);
  }

  /** A miss in the fast table, then the slow decoder. */
  lemma {:induction false} MissOutcome(c: Book, lens: seq<nat>, addr: seq<nat>, acc: nat, valid: nat, rest: seq<byte>,
                                       x: int, after: seq<bool>)
    requires Represents(c, lens, addr) && Ready(acc, valid, rest) && valid <= 32
    requires Low(acc, FAST_LENGTH) < FAST_SIZE == |c.fast| && c.fast[Low(acc, FAST_LENGTH)] == -1
    requires SlowOutcome(c, lens, addr, StreamBits(acc, valid, rest), Prepared(valid, |rest|), x, after)
    ensures Outcome(c, lens, addr, StreamBits(acc, valid, rest), Prepared(valid, |rest|), x, after)
  {
    var bits, held := StreamBits(acc, valid, rest), Prepared(valid, |rest|);
    HeldFits(acc, valid, rest);
    forall v | Starts(bits, lens, addr, v) ensures Sees(c, lens, v) <==> !Hidden(lens, c.sparse, v) {
      MissSees(c, lens, addr, acc, valid, rest, v);
    }
    if x >= 0 && c.sorted.Some? && Complete(lens, addr) && |lens| <= FAST_LIMIT {
      MissListed(c, lens, addr, acc, valid, rest, held);
    }
  }

  /** The codeword of length `l` has been taken off if it was all there. */
  predicate Shifted(l: nat, x: nat, acc0: nat, valid0: int, r: int, acc: nat, valid: nat) {
    if l <= valid0 then r == x && acc == Shr(acc0, l) && valid == valid0 - l else r == -1 && valid == 0
  }

  lemma {:induction false} HitUsed(c: Book, lens: seq<nat>, addr: seq<nat>, acc0: nat, valid0: nat, rest: seq<byte>,
                                   x: nat, r: int, acc: nat, valid: nat)
    requires |addr| == |lens| && IndexOk(c, x) && HitOutcomes(c, lens, addr, acc0, valid0, rest, x)
    requires Shifted(c.lengths[x], x, acc0, valid0, r, acc, valid)
    ensures Outcome(c, lens, addr, StreamBits(acc0, valid0, rest), Prepared(valid0, |rest|), r,
                    if r >= 0 then StreamBits(acc, valid, rest) else [])
  {
  }

  // ----- decoding, on the reader -----

  /** What decoding leaves when the index `r` is decided on with `held` bits in the accumulator:
      a codeword less, or nothing of what was held. */
  ghost predicate Leaves(c: Book, r: int, held: nat, bits: seq<bool>, valid: int, after: seq<bool>) {
    if r >= 0 then r < |c.lengths| && valid == held - c.lengths[r]
    else if NoTables(c) then valid == held && after == bits
    else valid == 0 && held <= |bits| && after == bits[held..]
  }

  predicate NoTables(c: Book) { c.codewords.None? && c.sorted.None? }

  lemma HeldDropped(acc: nat, valid: nat, rest: seq<byte>, acc': nat)
    ensures var bits := StreamBits(acc, valid, rest); valid <= |bits| && StreamBits(acc', 0, rest) == bits[valid..]
  {
    assert |ToBits(acc, valid)| == valid && ToBits(acc', 0) == [];
  }

  // Takes the symbol at `x` off the accumulator, or gives up.
  method TakeOff(f: Reader, c: Book, x: nat) returns (r: int)
    requires f.Valid() && x < |c.lengths|
    modifies f`acc, f`validBits
    ensures f.Valid() && f.validBits >= 0
    ensures Shifted(c.lengths[x], x, old(f.acc), old(f.validBits), r, f.acc, f.validBits)
  {
    var len := c.lengths[x];
    if f.validBits >= len {
      var _ := f.DropBits(len);
      return x;
    }
    f.validBits := 0;
    r := -1;
  }

  method SearchRaw(f: Reader, c: Book, ghost lens: seq<nat>, ghost addr: seq<nat>) returns (r: int)
    requires f.Valid() && (f.validBits >= 0 ==> f.acc < Pow2(f.validBits))
    requires Represents(c, lens, addr) && c.sorted.Some? && UsesSearch(c)
    modifies f`acc, f`validBits
    ensures f.Valid() && f.validBits >= 0 && IndexOk(c, r)
    ensures old(f.validBits) < 0 ==> r == -1 && f.validBits == 0
    ensures old(f.validBits) >= 0 ==>
              && SlowOutcome(c, lens, addr, old(f.Bits()), old(f.validBits), r, if r >= 0 then f.Bits() else [])
              && Leaves(c, r, old(f.validBits), old(f.Bits()), f.validBits, f.Bits())
  {
    var y := FindSorted(c, f.acc, lens, addr);
    var x := if c.sparse then y else c.values[y];
    ghost var acc0, valid0 := f.acc, f.validBits;
    r := TakeOff(f, c, x);
    if valid0 >= 0 {
      SearchUsed(c, lens, addr, acc0, valid0, f.rest, y, x, r, f.acc, f.validBits);
      HeldDropped(acc0, valid0, f.rest, f.acc);
    }
  }

  method FindSorted(c: Book, acc: nat, ghost lens: seq<nat>, ghost addr: seq<nat>) returns (y: nat)
    requires Represents(c, lens, addr) && c.sorted.Some? && acc < WORD
    ensures |c.values| <= |c.sorted.value| && SearchEnds(c.sorted.value, |c.values|, Reverse(acc, 32), y)
    ensures (if c.sparse then y else c.values[y]) < |c.lengths|
  {
    BitReverseReverses(acc);
    ValuesThere(c, lens, addr);
    y := Search(c.sorted.value, |c.values|, BitReverse(acc));
  }

  /** Where the search ends, used: the slow decoder's outcome. */
  lemma SearchUsed(c: Book, lens: seq<nat>, addr: seq<nat>, acc0: nat, valid0: nat, rest: seq<byte>, y: nat, x: nat,
                   r: int, acc: nat, valid: nat)
    requires Represents(c, lens, addr) && c.sorted.Some? && UsesSearch(c) && acc0 < Pow2(valid0) && acc0 < WORD
    requires |c.values| <= |c.sorted.value| && SearchEnds(c.sorted.value, |c.values|, Reverse(acc0, 32), y)
    requires x == (if c.sparse then y else c.values[y]) && x < |c.lengths|
    requires Shifted(c.lengths[x], x, acc0, valid0, r, acc, valid)
    ensures SlowOutcome(c, lens, addr, StreamBits(acc0, valid0, rest), valid0, r,
                        if r >= 0 then StreamBits(acc, valid, rest) else [])
  {
    SearchOutcome(c, lens, addr, acc0, valid0, rest, y);
  }

  lemma ValuesThere(c: Book, lens: seq<nat>, addr: seq<nat>)
    requires Represents(c, lens, addr) && c.sorted.Some?
    ensures c.values != []
  {
    var symbols := Listed(lens, |lens|, c.sparse);
    assert symbols[0] in c.values;
  }

  ghost predicate NoMatch(lens: seq<nat>, addr: seq<nat>, word: nat)
    requires |addr| == |lens|
  {
    forall v :: 0 <= v < |lens| ==> !SymbolMatches(lens, addr, v, word)
  }

  /** No codeword matches the bits held. */
  ghost predicate NothingStarts(lens: seq<nat>, addr: seq<nat>, bits: seq<bool>, held: nat)
    requires |addr| == |lens|
  {
    held <= |bits| && NoMatch(lens, addr, FromBits(bits[..held]))
  }

  // A scan that finds nothing says that the stream is invalid.
  method ScanRaw(f: Reader, c: Book, ghost lens: seq<nat>, ghost addr: seq<nat>) returns (r: int)
    requires f.Valid() && (f.validBits >= 0 ==> f.acc < Pow2(f.validBits))
    requires Represents(c, lens, addr) && !c.sparse && !UsesSearch(c)
    modifies f`acc, f`validBits, f.packet`error
    ensures f.Valid() && f.validBits >= 0 && IndexOk(c, r)
    ensures old(f.validBits) < 0 ==> r == -1 && f.validBits == 0
    ensures old(f.validBits) >= 0 ==>
              && SlowOutcome(c, lens, addr, old(f.Bits()), old(f.validBits), r, if r >= 0 then f.Bits() else [])
              && Leaves(c, r, old(f.validBits), old(f.Bits()), f.validBits, f.Bits())
    ensures f.packet.error == if NoMatch(lens, addr, old(f.acc)) then PacketReader.InvalidStream
              else old(f.packet.error)
  {
    var i := FirstMatch(c, f.acc, lens, addr);
    ghost var acc0, valid0 := f.acc, f.validBits;
    if i >= 0 {
      r := TakeOff(f, c, i);
    } else {
      f.packet.error := PacketReader.InvalidStream;
      f.validBits := 0;
      r := -1;
    }
    if valid0 >= 0 {
      ScanOutcome(c, lens, addr, acc0, valid0, f.rest, i);
      HeldDropped(acc0, valid0, f.rest, f.acc);
    }
  }

  lemma EntryMatches(c: Book, lens: seq<nat>, addr: seq<nat>, word: nat, i: nat)
    requires Represents(c, lens, addr) && !c.sparse && i < c.entries
    ensures c.lengths[i] != NO_CODE && c.codewords.value[i] == Low(word, c.lengths[i]) <==>
              SymbolMatches(lens, addr, i, word)
  {
  }

  method FirstMatch(c: Book, word: nat, ghost lens: seq<nat>, ghost addr: seq<nat>) returns (r: int)
    requires Represents(c, lens, addr) && !c.sparse
    ensures -1 <= r < |lens| && (r >= 0 ==> SymbolMatches(lens, addr, r, word))
    ensures (r == -1 <==> NoMatch(lens, addr, word))
  {
    var i := 0;
    while i < c.entries
      invariant i <= c.entries && forall v :: 0 <= v < i ==> !SymbolMatches(lens, addr, v, word)
    {
      EntryMatches(c, lens, addr, word, i);
      if c.lengths[i] != NO_CODE && c.codewords.value[i] == Low(word, c.lengths[i]) { return i; }
      i := i + 1;
    }
    r := -1;
  }

  /** The slow decoder: tops up, then searches or scans.  After a failed read it finds nothing
      and, unless the book is empty, wipes out the mark of the failure. */
  method DecodeScalarRaw(f: Reader, c: Book, ghost lens: seq<nat>, ghost addr: seq<nat>) returns (r: int)
    requires f.Valid() && (f.validBits >= 0 || f.steady) && Represents(c, lens, addr)
    modifies f, f.packet
    ensures f.Valid() && f.steady == old(f.steady) && IndexOk(c, r)
    ensures old(f.validBits) < 0 ==> Wiped(c, old(f.validBits), r, f.validBits) && f.rest == old(f.rest)
    ensures old(f.validBits) >= 0 ==> f.validBits >= 0
    ensures f.steady && old(f.validBits) >= 0 ==>
              SlowDone(c, lens, addr, old(f.Bits()), Prepared(old(f.validBits), |old(f.rest)|), r, f.validBits,
                       f.Bits(), f.packet.error)
  {
    f.PrepHuffman();
    r := SlowRaw(f, c, lens, addr);
  }

  // The same once the accumulator has been topped up.
  method SlowRaw(f: Reader, c: Book, ghost lens: seq<nat>, ghost addr: seq<nat>) returns (r: int)
    requires f.Valid() && (f.validBits >= 0 ==> f.acc < Pow2(f.validBits)) && Represents(c, lens, addr)
    modifies f`acc, f`validBits, f.packet`error
    ensures f.Valid() && IndexOk(c, r)
    ensures old(f.validBits) < 0 ==> Wiped(c, old(f.validBits), r, f.validBits)
    ensures old(f.validBits) >= 0 ==> f.validBits >= 0
    ensures old(f.validBits) >= 0 ==>
              SlowDone(c, lens, addr, old(f.Bits()), old(f.validBits), r, f.validBits, f.Bits(), f.packet.error)
  {
    if f.validBits >= 0 { HeldWord(f.acc, f.validBits, f.rest); }
    if c.codewords.None? && c.sorted.None? {
      if f.validBits >= 0 { EmptyOutcome(c, lens, addr, f.Bits(), f.validBits); }
      return -1;
    }
    if UsesSearch(c) {
      r := SearchRaw(f, c, lens, addr);
    } else {
      r := ScanRaw(f, c, lens, addr);
    }
  }

  /** The slow decoder's outcome with `held` bits, what it leaves and, for a scan that finds
      nothing, its error. */
  ghost predicate SlowDone(c: Book, lens: seq<nat>, addr: seq<nat>, bits: seq<bool>, held: nat, r: int,
                           valid: int, after: seq<bool>, error: PacketReader.ReadError)
    requires |addr| == |lens|
  {
    && SlowOutcome(c, lens, addr, bits, held, r, if r >= 0 then after else [])
    && Leaves(c, r, held, bits, valid, after)
    && (c.codewords.Some? && !UsesSearch(c) && NothingStarts(lens, addr, bits, held) ==>
        error == PacketReader.InvalidStream)
  }

  /** Decoding after a failed read: nothing is found, and the mark is gone unless the book is
      empty. */
  predicate Wiped(c: Book, valid0: int, r: int, valid: int) {
    r == -1 && valid == if NoTables(c) then valid0 else 0
  }

  /** How many bits are held when the fast table is looked at. */
  function Fetched(valid: nat, bytes: nat): nat {
    if valid < FAST_LENGTH then Prepared(valid, bytes) else valid
  }

  // Makes sure the fast table has enough bits to look at, or all there are.
  method MakeReady(f: Reader)
    requires f.Valid() && (f.validBits >= 0 || f.steady)
    modifies f, f.packet
    ensures f.Valid() && f.steady == old(f.steady)
    ensures old(f.validBits) < 0 ==> f.validBits == old(f.validBits) && f.rest == old(f.rest)
    ensures old(f.validBits) >= 0 ==> f.validBits >= 0 && f.acc < Pow2(f.validBits)
    ensures f.steady && old(f.validBits) >= 0 ==>
              && Ready(f.acc, f.validBits, f.rest) && f.validBits == Fetched(old(f.validBits), |old(f.rest)|)
              && SameBits(old(f.acc), old(f.validBits), old(f.rest), f.acc, f.validBits, f.rest)
  {
    if f.validBits < FAST_LENGTH {
      f.PrepHuffman();
      if f.steady && f.validBits >= 0 { HeldFits(f.acc, f.validBits, f.rest); }
    }
  }

  // Takes the symbol that the fast table names off the accumulator.
  method FastRaw(f: Reader, c: Book, x: nat) returns (r: int)
    requires f.Valid() && x < |c.lengths| && c.lengths[x] <= FAST_LENGTH
    requires f.validBits >= 0 ==> f.acc < Pow2(f.validBits)
    modifies f`acc, f`validBits
    ensures f.Valid() && f.validBits >= 0
    ensures Shifted(c.lengths[x], x, old(f.acc), old(f.validBits), r, f.acc, f.validBits)
  {
    var n := c.lengths[x];
    ShrAtMost(f.acc, n);
    if n <= f.validBits { ShrFits(f.acc, n, f.validBits); }
    f.acc := Shr(f.acc, n);
    f.validBits, r := f.validBits - n, x;
    if f.validBits < 0 { f.validBits, r := 0, -1; }
  }

  /** What decoding leaves: the fast table decides with fewer bits held than the slow decoder. */
  ghost predicate LeavesAfter(c: Book, lens: seq<nat>, addr: seq<nat>, r: int, valid0: nat, bytes: nat, bits: seq<bool>,
                              valid: int, after: seq<bool>)
    requires |addr| == |lens| && IndexOk(c, r)
  {
    var short := r >= 0 && c.lengths[r] <= FAST_LENGTH;
    && (Leaves(c, r, Prepared(valid0, bytes), bits, valid, after)
        || (short && Leaves(c, r, Fetched(valid0, bytes), bits, valid, after)))
    && (short && |lens| <= FAST_LIMIT && Starts(bits, lens, addr, SymbolAt(c, r)) ==>
          Leaves(c, r, Fetched(valid0, bytes), bits, valid, after))
  }

  /** The fast table, and the slow decoder if it has no entry. */
  method DecodeRaw(f: Reader, c: Book, ghost lens: seq<nat>, ghost addr: seq<nat>) returns (r: int)
    requires f.Valid() && (f.validBits >= 0 || f.steady) && Represents(c, lens, addr)
    modifies f, f.packet
    ensures f.Valid() && f.steady == old(f.steady) && IndexOk(c, r)
    ensures old(f.validBits) < 0 ==> Wiped(c, old(f.validBits), r, f.validBits) && f.rest == old(f.rest)
    ensures old(f.validBits) >= 0 ==> f.validBits >= 0
    ensures f.steady && old(f.validBits) >= 0 ==>
              && Outcome(c, lens, addr, old(f.Bits()), Prepared(old(f.validBits), |old(f.rest)|), r,
                         if r >= 0 then f.Bits() else [])
              && LeavesAfter(c, lens, addr, r, old(f.validBits), |old(f.rest)|, old(f.Bits()), f.validBits, f.Bits())
  {
    MakeReady(f);
    ghost var valid1, n1 := f.validBits, |f.rest|;
    r := LookUp(f, c, lens, addr);
    if f.steady && valid1 >= 0 { FetchedOnce(old(f.validBits), |old(f.rest)|, valid1, n1); }
  }

  lemma FetchedOnce(valid0: nat, n0: nat, valid: nat, n: nat)
    requires valid == Fetched(valid0, n0) && Prepared(valid, n) == Prepared(valid0, n0)
    ensures Fetched(valid, n) == valid
  {
  }

  method LookUp(f: Reader, c: Book, ghost lens: seq<nat>, ghost addr: seq<nat>) returns (r: int)
    requires f.Valid() && (f.validBits >= 0 || f.steady) && Represents(c, lens, addr)
    requires f.validBits >= 0 ==> f.acc < Pow2(f.validBits)
    requires f.steady && f.validBits >= 0 ==> Ready(f.acc, f.validBits, f.rest)
    modifies f, f.packet
    ensures f.Valid() && f.steady == old(f.steady) && IndexOk(c, r)
    ensures old(f.validBits) < 0 ==> Wiped(c, old(f.validBits), r, f.validBits) && f.rest == old(f.rest)
    ensures old(f.validBits) >= 0 ==> f.validBits >= 0
    ensures f.steady && old(f.validBits) >= 0 ==>
              && Outcome(c, lens, addr, old(f.Bits()), Prepared(old(f.validBits), |old(f.rest)|), r,
                         if r >= 0 then f.Bits() else [])
              && LeavesAfter(c, lens, addr, r, old(f.validBits), |old(f.rest)|, old(f.Bits()), f.validBits, f.Bits())
  {
    ghost var acc0, valid0, rest0 := f.acc, f.validBits, f.rest;
    FastIndex(f.acc);
    FastEntry(c, lens, addr, Low(f.acc, FAST_LENGTH));
    var x := c.fast[Low(f.acc, FAST_LENGTH)];
    if x >= 0 {
      r := FastRaw(f, c, x);
      if f.steady && valid0 >= 0 {
        FastOutcome(c, lens, addr, acc0, valid0, rest0, x);
        HitUsed(c, lens, addr, acc0, valid0, rest0, x, r, f.acc, f.validBits);
        HitLeaves(c, lens, addr, acc0, valid0, rest0, x, r, f.acc, f.validBits);
      }
    } else {
      r := DecodeScalarRaw(f, c, lens, addr);
      if f.steady && valid0 >= 0 {
        MissOutcome(c, lens, addr, acc0, valid0, rest0, r, if r >= 0 then f.Bits() else []);
        MissLeaves(c, lens, addr, acc0, valid0, rest0, r, f.validBits, f.Bits());
      }
    }
  }

  lemma HitLeaves(c: Book, lens: seq<nat>, addr: seq<nat>, acc0: nat, valid0: nat, rest: seq<byte>, x: nat, r: int,
                  acc: nat, valid: nat)
    requires Represents(c, lens, addr) && Ready(acc0, valid0, rest) && IndexOk(c, x) && c.lengths[x] <= FAST_LENGTH
    requires Shifted(c.lengths[x], x, acc0, valid0, r, acc, valid)
    ensures LeavesAfter(c, lens, addr, r, valid0, |rest|, StreamBits(acc0, valid0, rest), valid,
                        StreamBits(acc, valid, rest))
  {
    HeldFits(acc0, valid0, rest);
    HeldDropped(acc0, valid0, rest, acc);
    assert !NoTables(c);
  }

  lemma MissLeaves(c: Book, lens: seq<nat>, addr: seq<nat>, acc: nat, valid0: nat, rest: seq<byte>, r: int,
                   valid: int, after: seq<bool>)
    requires Represents(c, lens, addr) && Ready(acc, valid0, rest) && IndexOk(c, r)
    requires Low(acc, FAST_LENGTH) < FAST_SIZE == |c.fast| && c.fast[Low(acc, FAST_LENGTH)] == -1
    requires Leaves(c, r, Prepared(valid0, |rest|), StreamBits(acc, valid0, rest), valid, after)
    ensures LeavesAfter(c, lens, addr, r, valid0, |rest|, StreamBits(acc, valid0, rest), valid, after)
  {
    var bits := StreamBits(acc, valid0, rest);
    if r >= 0 && c.lengths[r] <= FAST_LENGTH && |lens| <= FAST_LIMIT && Starts(bits, lens, addr, SymbolAt(c, r)) {
      ShortMiss(c, lens, addr, acc, valid0, rest, SymbolAt(c, r));
    }
  }

  /** In a book that is not too large no short codeword misses the fast table. */
  lemma ShortMiss(c: Book, lens: seq<nat>, addr: seq<nat>, acc: nat, valid: nat, rest: seq<byte>, v: int)
    requires Represents(c, lens, addr) && Ready(acc, valid, rest) && |lens| <= FAST_LIMIT
    requires Low(acc, FAST_LENGTH) < FAST_SIZE == |c.fast| && c.fast[Low(acc, FAST_LENGTH)] == -1
    requires Starts(StreamBits(acc, valid, rest), lens, addr, v)
    ensures lens[v] > FAST_LENGTH
  {
    HeldFits(acc, valid, rest);
    if lens[v] <= FAST_LENGTH {
      StartsShown(StreamBits(acc, valid, rest), acc, valid, rest, lens, addr, v);
      FastMiss(c, lens, addr, acc, v);
      if c.sparse { ValuesFit(c, lens, addr); }
    }
  }

  lemma FastEntry(c: Book, lens: seq<nat>, addr: seq<nat>, z: nat)
    requires Represents(c, lens, addr) && z < FAST_SIZE
    ensures |c.fast| == FAST_SIZE && IndexOk(c, c.fast[z]) && (c.fast[z] >= 0 ==> c.lengths[c.fast[z]] <= FAST_LENGTH)
  {
  }

  /** Decodes one symbol.  After a failed read there is none, and the mark that the read left is
      wiped out. */
  method Decode(f: Reader, c: Book, ghost lens: seq<nat>, ghost addr: seq<nat>) returns (symbol: int)
    requires f.Valid() && (f.validBits >= 0 || f.steady) && Represents(c, lens, addr)
    modifies f, f.packet
    ensures f.Valid() && f.steady == old(f.steady)
    ensures old(f.validBits) < 0 ==> Wiped(c, old(f.validBits), symbol, f.validBits) && f.rest == old(f.rest)
    ensures old(f.validBits) >= 0 ==> f.validBits >= 0
    ensures f.steady && old(f.validBits) >= 0 ==>
              && DecodesTo(c, lens, addr, old(f.Bits()), Prepared(old(f.validBits), |old(f.rest)|), symbol,
                           if symbol >= 0 then f.Bits() else [])
              && DecodeLeaves(c, lens, addr, symbol, old(f.validBits), |old(f.rest)|, old(f.Bits()), f.validBits,
                              f.Bits())
  {
    var r := DecodeRaw(f, c, lens, addr);
    symbol := if c.sparse && r >= 0 then c.values[r] else r;
  }

  /** What decoding leaves, by the symbol: its codeword's length comes off what was held when it
      was looked up in the fast table, if it is short, or topped up, if it is long; without a
      symbol all that was held after topping up is lost. */
  ghost predicate DecodeLeaves(c: Book, lens: seq<nat>, addr: seq<nat>, symbol: int, valid0: nat, bytes: nat,
                               bits: seq<bool>,
                               valid: int, after: seq<bool>)
    requires |addr| == |lens|
  {
    var held := Prepared(valid0, bytes);
    if symbol < 0 then
      if NoTables(c) then valid == held && after == bits else valid == 0 && held <= |bits| && after == bits[held..]
    else
      symbol < |lens| && var l := lens[symbol];
      && (valid == held - l || (l <= FAST_LENGTH && valid == Fetched(valid0, bytes) - l))
      && (l <= FAST_LENGTH && |lens| <= FAST_LIMIT && Starts(bits, lens, addr, symbol) ==>
          valid == Fetched(valid0, bytes) - l)
  }

  ghost predicate DecodesTo(c: Book, lens: seq<nat>, addr: seq<nat>, bits: seq<bool>, held: nat, symbol: int,
                            after: seq<bool>)
    requires |addr| == |lens|
  {
    && (symbol == -1 || (0 <= symbol < |lens| && lens[symbol] <= held <= |bits| && after == bits[lens[symbol]..]))
    && (forall v :: Starts(bits, lens, addr, v) ==> (symbol == v <==> lens[v] <= held && !Hidden(lens, c.sparse, v)))
    && (symbol >= 0 && (c.sorted.None? || (Complete(lens, addr) && |lens| <= FAST_LIMIT)) ==>
        Starts(bits, lens, addr, symbol))
  }

  lemma ShrFits(acc: nat, n: nat, valid: nat)
    requires n <= valid && acc < Pow2(valid)
    ensures Shr(acc, n) < Pow2(valid - n)
  {
    ShrBound(acc, n, valid - n);
  }

  // ----- against a plain search for the codeword -----

  /** The first symbol, from `v` on, whose codeword starts the bits. */
  ghost function PlainSearch(bits: seq<bool>, lens: seq<nat>, addr: seq<nat>, v: nat): (r: int)
    requires |addr| == |lens| && v <= |lens|
    ensures r == -1 || (v <= r && Starts(bits, lens, addr, r))
    ensures r == -1 ==> forall w :: v <= w ==> !Starts(bits, lens, addr, w)
    decreases |lens| - v
  {
    if v == |lens| then -1 else if Starts(bits, lens, addr, v) then v else PlainSearch(bits, lens, addr, v + 1)
  }

  /** At most one codeword starts the bits. */
  lemma StartsUnique(bits: seq<bool>, lens: seq<nat>, addr: seq<nat>, v: int, w: int)
    requires IsCode(lens, addr) && Starts(bits, lens, addr, v) && Starts(bits, lens, addr, w)
    ensures v == w
  {
    var l := if lens[v] <= lens[w] then lens[w] else lens[v];
    var word := FromBits(bits[..l]);
    ShortWord(word, l);
    PrefixLow(bits, lens[v], l);
    PrefixLow(bits, lens[w], l);
    UniqueMatch(lens, addr, v, w, word);
  }

  /** Books that decode everything: no codeword longer than what is always held, and no
      more symbols than the fast table can name. */
  predicate Decodable(lens: seq<nat>) {
    |lens| <= FAST_LIMIT && forall v :: 0 <= v < |lens| ==> lens[v] <= 25 || lens[v] == NO_CODE
  }

  /** Decoding agrees with the plain search whenever that finds something, and always if the
      code is complete or small enough to be scanned. */
  lemma DecodesLikePlainSearch(c: Book, lens: seq<nat>, addr: seq<nat>, acc: nat, valid: nat, rest: seq<byte>,
                               symbol: int, after: seq<bool>)
    requires Represents(c, lens, addr) && Decodable(lens)
    requires DecodesTo(c, lens, addr, StreamBits(acc, valid, rest), Prepared(valid, |rest|), symbol, after)
    ensures var bits := StreamBits(acc, valid, rest); var plain := PlainSearch(bits, lens, addr, 0);
      && (plain >= 0 || c.sorted.None? || Complete(lens, addr) ==> symbol == plain)
      && (plain >= 0 ==> after == bits[lens[plain]..])
  {
    var bits := StreamBits(acc, valid, rest);
    forall v | Starts(bits, lens, addr, v) ensures symbol == v {
      AlwaysFound(lens, addr, acc, valid, rest, c.sparse, v);
    }
  }

  lemma AlwaysFound(lens: seq<nat>, addr: seq<nat>, acc: nat, valid: nat, rest: seq<byte>, sparse: bool, v: int)
    requires |addr| == |lens| && Decodable(lens) && Starts(StreamBits(acc, valid, rest), lens, addr, v)
    ensures lens[v] <= Prepared(valid, |rest|) && !Hidden(lens, sparse, v)
  {
    BytesBitsLength(rest);
  }

  // ----- whole messages -----

  /** The codeword as it lies in the stream. */
  function CodeBits(lens: seq<nat>, addr: seq<nat>, v: nat): seq<bool>
    requires |addr| == |lens| && v < |lens|
  {
    ToBits(Reverse(addr[v], 32), lens[v])
  }

  predicate Coded(lens: seq<nat>, symbols: seq<nat>) {
    forall i :: 0 <= i < |symbols| ==> symbols[i] < |lens| && lens[symbols[i]] != NO_CODE
  }

  function EncodeAll(lens: seq<nat>, addr: seq<nat>, symbols: seq<nat>): seq<bool>
    requires |addr| == |lens| && Coded(lens, symbols)
  {
    if symbols == [] then [] else CodeBits(lens, addr, symbols[0]) + EncodeAll(lens, addr, symbols[1..])
  }

  ghost function PlainDecode(bits: seq<bool>, lens: seq<nat>, addr: seq<nat>, n: nat): Option<seq<nat>>
    requires |addr| == |lens|
    decreases n
  {
    if n == 0 then Some([])
    else
      var v := PlainSearch(bits, lens, addr, 0);
      if v == -1 then None
      else match PlainDecode(bits[lens[v]..], lens, addr, n - 1)
        case None => None
        case Some(tail) => Some([v] + tail)
  }

  lemma CodeBitsStart(lens: seq<nat>, addr: seq<nat>, v: nat, tail: seq<bool>)
    requires IsCode(lens, addr) && v < |lens| && lens[v] != NO_CODE
    ensures Starts(CodeBits(lens, addr, v) + tail, lens, addr, v)
  {
    var code := CodeBits(lens, addr, v);
    CodeOfNode(addr[v], lens[v]);
    FromToBits(Reverse(addr[v], 32), lens[v]);
    LowSmall(Reverse(addr[v], 32), lens[v]);
    assert (code + tail)[..lens[v]] == code;
  }

  lemma {:induction false} MessageSplit(lens: seq<nat>, addr: seq<nat>, symbols: seq<nat>, tail: seq<bool>)
    requires |addr| == |lens| && Coded(lens, symbols) && symbols != []
    ensures EncodeAll(lens, addr, symbols) + tail ==
              CodeBits(lens, addr, symbols[0]) + (EncodeAll(lens, addr, symbols[1..]) + tail)
  {
    Regroup(CodeBits(lens, addr, symbols[0]), EncodeAll(lens, addr, symbols[1..]), tail);
  }

  /** The plain search finds a codeword that the bits start with, and leaves the rest. */
  lemma CodeSearched(lens: seq<nat>, addr: seq<nat>, v: nat, later: seq<bool>)
    requires IsCode(lens, addr) && v < |lens| && lens[v] != NO_CODE
    ensures var bits := CodeBits(lens, addr, v) + later;
              PlainSearch(bits, lens, addr, 0) == v && bits[lens[v]..] == later
  {
    var bits := CodeBits(lens, addr, v) + later;
    CodeBitsStart(lens, addr, v, later);
    var first := PlainSearch(bits, lens, addr, 0);
    StartsUnique(bits, lens, addr, v, first);
  }

  /** Any message decodes to itself, whatever follows it. */
  lemma {:induction false} MessageRoundTrip(lens: seq<nat>, addr: seq<nat>, symbols: seq<nat>, tail: seq<bool>)
    requires IsCode(lens, addr) && Coded(lens, symbols)
    ensures PlainDecode(EncodeAll(lens, addr, symbols) + tail, lens, addr, |symbols|) == Some(symbols)
  {
    if symbols != [] {
      MessageSplit(lens, addr, symbols, tail);
      CodeSearched(lens, addr, symbols[0], EncodeAll(lens, addr, symbols[1..]) + tail);
      MessageRoundTrip(lens, addr, symbols[1..], tail);
      assert symbols == [symbols[0]] + symbols[1..];
    }
  }

  // ----- what does not decode -----

  /** A codeword longer than the `valid` > 24 bits left in the accumulator is not found, though
      the stream has it: here the only codeword, all zeros. */
  lemma {:induction false} LongCodewordMissed(valid: nat, l: nat, c: Book, symbol: int, after: seq<bool>)
    requires 24 < valid < l <= 31
    ensures LowestAssignment([l], [0]) && Kraft([l], 1) <= WORD
    ensures var bits := StreamBits(0, valid, [0]);
      && Starts(bits, [l], [0], 0) && Prepared(valid, 1) == valid
      && (DecodesTo(c, [l], [0], bits, Prepared(valid, 1), symbol, after) ==> symbol != 0)
  {
    var lens, addr, bits := [l], [0], StreamBits(0, valid, [0]);
    ZeroNode(l);
    ZeroStream(valid, l);
    ReverseZero(32);
    assert Kraft(lens, 1) == Kraft(lens, 0) + Size(l);
  }

  lemma ZeroStream(valid: nat, l: nat)
    requires l <= valid + 8
    ensures l <= |StreamBits(0, valid, [0])| && FromBits(StreamBits(0, valid, [0])[..l]) == 0
  {
    var zero, octet := 0, OCTET;
    ShlZero(valid);
    AppendBits(zero, valid, zero, octet);
    FirstByte(0, []);
    assert [0] + [] == [0];
    assert StreamBits(zero, valid, [0]) == StreamBits(zero, valid + octet, []);
    TakeOut(zero, valid + octet, l, []);
    LowSmall(zero, l);
  }

  /** Lengths that hide their last symbol: one short codeword after as many long ones as the
      fast table has names. */
  function HidingLengths(): (lens: seq<nat>)
    ensures |lens| == FAST_LIMIT + 1
  {
    seq(FAST_LIMIT + 1, i requires 0 <= i <= FAST_LIMIT => if i < FAST_LIMIT then 20 else 1)
  }

  lemma {:induction false} EqualLengths(lens: seq<nat>, n: nat, l: nat)
    requires LengthsOk(lens) && n <= |lens| && l == 20 && forall i :: 0 <= i < n ==> lens[i] == l
    ensures Kraft(lens, n) == 4096 * n
  {
    if n > 0 {
      EqualLengths(lens, n - 1, l);
      assert Size(20) == 4096;
    }
  }

  lemma HidingFits()
    ensures LengthsOk(HidingLengths()) && Kraft(HidingLengths(), FAST_LIMIT + 1) <= WORD
  {
    var lens, n := HidingLengths(), FAST_LIMIT;
    EqualLengths(lens, n, 20);
    assert Size(1) == WORD / 2 by { Pow2Values(); }
  }

  lemma HidingHides()
    ensures Hidden(HidingLengths(), false, FAST_LIMIT)
  {
    var lens := HidingLengths();
    ListedAll(lens, |lens|, false);
    assert Included(false, lens[0]);
  }

  /** The last symbol is never decoded, though the code is not overfull. */
  lemma HiddenExample(c: Book, addr: seq<nat>, bits: seq<bool>, held: nat, symbol: int, after: seq<bool>)
    requires |addr| == FAST_LIMIT + 1 && Starts(bits, HidingLengths(), addr, FAST_LIMIT) && !c.sparse
    requires DecodesTo(c, HidingLengths(), addr, bits, held, symbol, after)
    ensures LengthsOk(HidingLengths()) && Kraft(HidingLengths(), FAST_LIMIT + 1) <= WORD && symbol != FAST_LIMIT
  {
    HidingFits();
    HidingHides();
  }
}
