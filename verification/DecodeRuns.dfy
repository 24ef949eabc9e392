/** Any interleaving of bit reads, top-ups and decoded symbols, against the bit stream alone. */
module DecodeRuns {
  import opened Bits
  import opened Options
  import opened Codewords
  import opened Codebook
  import opened OggPackets
  import opened BitReader
  import opened Huffman

  datatype Op = Read(n: nat) | TopUp | Symbol(book: Book, lens: seq<nat>, addr: seq<nat>)

  ghost predicate OpOk(op: Op) {
    match op
    case Read(n) => n <= 31
    case TopUp => true
    case Symbol(book, lens, addr) => Represents(book, lens, addr) && Decodable(lens)
  }

  ghost predicate OpsOk(ops: seq<Op>) {
    forall i :: 0 <= i < |ops| ==> OpOk(ops[i])
  }

  /** What one operation reads from a bit stream and what it leaves, if the stream has it. */
  ghost function Take(bits: seq<bool>, op: Op): Option<(int, seq<bool>)>
    requires OpOk(op)
  {
    match op
    case Read(n) => if n <= |bits| then Some((FromBits(bits[..n]), bits[n..])) else None
    case TopUp => Some((0, bits))
    case Symbol(_, lens, addr) =>
      var v := PlainSearch(bits, lens, addr, 0);
      if v == -1 then None else Some((v, bits[lens[v]..]))
  }

  ghost function TakeAll(bits: seq<bool>, ops: seq<Op>): Option<(seq<int>, seq<bool>)>
    requires OpsOk(ops)
    decreases |ops|
  {
    if ops == [] then Some(([], bits))
    else match Take(bits, ops[0])
      case None => None
      case Some((v, rest)) =>
        match TakeAll(rest, ops[1..])
        case None => None
        case Some((vs, last)) => Some(([v] + vs, last))
  }

  // ----- what the reader does, failures included -----

  /** The bits that are left and how many of them the accumulator holds; -1 marks a failed read. */
  datatype State = State(bits: seq<bool>, held: int)
  {
    /** Bytes that are not in the accumulator yet. */
    function Unread(): nat { if 0 <= held <= |bits| then (|bits| - held) / 8 else 0 }
  }

  const FAILED := State([], INVALID_BITS)

  ghost function StateOf(f: Reader): State
    reads f
  {
    if f.validBits < 0 then FAILED else State(f.Bits(), f.validBits)
  }

  ghost predicate ReadDone(a: State, n: nat, v: int, b: State) {
    if a.held < 0 then v == 0 && b == a
    else if n <= |a.bits| then v == FromBits(a.bits[..n]) && b == State(a.bits[n..], LeftHeld(a.held, n))
    else v == (if 24 <= |a.bits| && 24 < n then FromBits(a.bits[..24]) else 0) && b == FAILED
  }

  /** A codeword that starts the bits is found.  Otherwise what is held is lost; only in an
      incomplete code may some other symbol be returned instead. */
  ghost predicate SymbolDone(a: State, book: Book, lens: seq<nat>, addr: seq<nat>, v: int, b: State)
    requires Represents(book, lens, addr)
  {
    if a.held < 0 then v == -1 && b == if NoTables(book) then a else State([], 0)
    else
      var plain, held, fetched := PlainSearch(a.bits, lens, addr, 0), Prepared(a.held, a.Unread()),
        Fetched(a.held, a.Unread());
      b.held >= 0 &&
      if plain >= 0 then
        v == plain && b == State(a.bits[lens[v]..], (if lens[v] <= FAST_LENGTH then fetched else held) - lens[v])
      else if v < 0 then
        v == -1 && held <= |a.bits| && b == if NoTables(book) then State(a.bits, held) else State(a.bits[held..], 0)
      else
        && book.sorted.Some? && !Complete(lens, addr) && v < |lens| && lens[v] <= held <= |a.bits|
        && b.bits == a.bits[lens[v]..] && (b.held == held - lens[v] || b.held == fetched - lens[v])
  }

  /** The operation takes the reader from `a` to `b` and returns `v`. */
  ghost predicate Done(a: State, op: Op, v: int, b: State)
    requires OpOk(op)
  {
    match op
    case Read(n) => ReadDone(a, n, v, b)
    case TopUp => v == 0 && b == if a.held < 0 then a else State(a.bits, Prepared(a.held, a.Unread()))
    case Symbol(book, lens, addr) => SymbolDone(a, book, lens, addr, v, b)
  }

  lemma UnreadBytes(acc: nat, valid: nat, rest: seq<byte>)
    ensures State(StreamBits(acc, valid, rest), valid).Unread() == |rest|
  {
    BytesBitsLength(rest);
  }

  lemma NothingHeld(acc: nat)
    ensures StreamBits(acc, 0, []) == []
  {
  }

  lemma SymbolIsDone(book: Book, lens: seq<nat>, addr: seq<nat>, acc: nat, valid: nat, rest: seq<byte>, v: int,
                     b: State)
    requires Represents(book, lens, addr) && Decodable(lens) && b.held >= 0
    requires DecodesTo(book, lens, addr, StreamBits(acc, valid, rest), Prepared(valid, |rest|), v,
                       if v >= 0 then b.bits else [])
    requires DecodeLeaves(book, lens, addr, v, valid, |rest|, StreamBits(acc, valid, rest), b.held, b.bits)
    ensures SymbolDone(State(StreamBits(acc, valid, rest), valid), book, lens, addr, v, b)
  {
    UnreadBytes(acc, valid, rest);
    BytesBitsLength(rest);
    DecodesLikePlainSearch(book, lens, addr, acc, valid, rest, v, if v >= 0 then b.bits else []);
  }

  /** One operation on the reader, whatever its packet holds. */
  method RunOp(f: Reader, op: Op) returns (v: int)
    requires f.Valid() && f.steady && OpOk(op)
    modifies f, f.packet
    ensures f.Valid() && f.steady && Done(old(StateOf(f)), op, v, StateOf(f))
  {
    ghost var acc, valid, rest := f.acc, f.validBits, f.rest;
    if valid >= 0 { UnreadBytes(acc, valid, rest); } else { FeedsNothing(f.packet.stream, f.packet.C(), rest); }
    match op
    case Read(n) => v := f.GetBits(n);
    case TopUp =>
      f.PrepHuffman();
      v := 0;
    case Symbol(book, lens, addr) =>
      v := Decode(f, book, lens, addr);
      if valid >= 0 { SymbolIsDone(book, lens, addr, acc, valid, rest, v, StateOf(f)); } else { NothingHeld(f.acc); }
  }

  /** Each operation of a run takes the reader from one state to the next. */
  ghost predicate RunDone(ops: seq<Op>, vs: seq<int>, states: seq<State>)
    requires OpsOk(ops)
  {
    && |vs| == |ops| && |states| == |ops| + 1
    && forall i :: 0 <= i < |ops| ==> Done(states[i], ops[i], vs[i], states[i + 1])
  }

  /** The first `i` operations are done. */
  ghost predicate SomeDone(ops: seq<Op>, i: nat, vs: seq<int>, states: seq<State>)
    requires OpsOk(ops)
  {
    && i <= |ops| && |vs| == i && |states| == i + 1
    && forall k :: 0 <= k < i ==> Done(states[k], ops[k], vs[k], states[k + 1])
  }

  lemma OneMoreDone(ops: seq<Op>, i: nat, vs: seq<int>, states: seq<State>, v: int, b: State)
    requires OpsOk(ops) && SomeDone(ops, i, vs, states) && i < |ops| && Done(states[i], ops[i], v, b)
    ensures SomeDone(ops, i + 1, vs + [v], states + [b])
  {
  }

  /** Any run of operations: the states it goes through. */
  method RunOps(f: Reader, ops: seq<Op>) returns (vs: seq<int>, ghost states: seq<State>)
    requires f.Valid() && f.steady && OpsOk(ops)
    modifies f, f.packet
    ensures f.Valid() && f.steady && RunDone(ops, vs, states)
    ensures states[0] == old(StateOf(f)) && states[|ops|] == StateOf(f)
    ensures TakeAll(old(StateOf(f)).bits, ops).Some? && old(f.validBits) >= 0 ==>
              f.validBits >= 0 && TakeAll(old(StateOf(f)).bits, ops) == Some((vs, f.Bits()))
  {
    vs, states := [], [StateOf(f)];
    for i := 0 to |ops|
      invariant f.Valid() && f.steady && SomeDone(ops, i, vs, states)
      invariant states[0] == old(StateOf(f)) && states[i] == StateOf(f)
    {
      var v := RunOp(f, ops[i]);
      OneMoreDone(ops, i, vs, states, v, StateOf(f));
      vs := vs + [v];
      states := states + [StateOf(f)];
    }
    if TakeAll(states[0].bits, ops).Some? && states[0].held >= 0 { RunServed(ops, vs, states); }
  }

  /** A run that the stream can serve gives the values in order, and leaves the rest. */
  lemma {:induction false} RunServed(ops: seq<Op>, vs: seq<int>, states: seq<State>)
    requires OpsOk(ops) && RunDone(ops, vs, states) && states[0].held >= 0 && TakeAll(states[0].bits, ops).Some?
    ensures states[|ops|].held >= 0 && TakeAll(states[0].bits, ops) == Some((vs, states[|ops|].bits))
    decreases |ops|
  {
    if ops != [] {
      FirstServed(ops, vs, states);
      RunServed(ops[1..], vs[1..], states[1..]);
      assert [vs[0]] + vs[1..] == vs;
    }
  }

  lemma {:induction false} FirstServed(ops: seq<Op>, vs: seq<int>, states: seq<State>)
    requires OpsOk(ops) && RunDone(ops, vs, states) && states[0].held >= 0 && TakeAll(states[0].bits, ops).Some?
    requires ops != []
    ensures OpsOk(ops[1..]) && RunDone(ops[1..], vs[1..], states[1..]) && states[1].held >= 0
    ensures TakeAll(states[1].bits, ops[1..]).Some?
    ensures var (rest, last) := TakeAll(states[1].bits, ops[1..]).value;
      TakeAll(states[0].bits, ops) == Some(([vs[0]] + rest, last))
  {
    OpServed(ops[0], vs[0], states[0], states[1]);
  }

  lemma OpServed(op: Op, v: int, a: State, b: State)
    requires OpOk(op) && Done(a, op, v, b) && a.held >= 0 && Take(a.bits, op).Some?
    ensures b.held >= 0 && Take(a.bits, op) == Some((v, b.bits))
  {
  }

  // ----- the mark of a failed read -----

  /** The operation wipes the mark out. */
  predicate Wipes(op: Op) { op.Symbol? && !NoTables(op.book) }

  /** The read fails here, and nothing after it wipes its mark out. */
  ghost predicate FailsForGood(ops: seq<Op>, states: seq<State>, i: nat)
    requires i < |ops| <= |states|
  {
    && ops[i].Read? && states[i].held >= 0 && ops[i].n > |states[i].bits|
    && forall j :: i < j < |ops| ==> !Wipes(ops[j])
  }

  /** At the end of a run the mark is there exactly when some read failed and no symbol was
      decoded after it: decoding never marks the end of a packet, and wipes out the mark of
      reads. */
  lemma {:induction false} MarkTells(ops: seq<Op>, vs: seq<int>, states: seq<State>)
    requires OpsOk(ops) && RunDone(ops, vs, states) && states[0].held >= 0
    ensures states[|ops|].held < 0 <==> exists i :: 0 <= i < |ops| && FailsForGood(ops, states, i)
  {
    if states[|ops|].held < 0 {
      var i := LastFailure(ops, vs, states);
      assert FailsForGood(ops, states, i);
    }
    if i :| 0 <= i < |ops| && FailsForGood(ops, states, i) {
      assert Done(states[i], ops[i], vs[i], states[i + 1]);
      MarkStays(ops, vs, states, i + 1);
    }
  }

  lemma {:induction false} LastFailure(ops: seq<Op>, vs: seq<int>, states: seq<State>) returns (i: nat)
    requires OpsOk(ops) && RunDone(ops, vs, states) && states[0].held >= 0 && states[|ops|].held < 0
    ensures i < |ops| && FailsForGood(ops, states, i)
  {
    i := |ops| - 1;
    while states[i].held < 0
      invariant 0 <= i < |ops| && states[i + 1].held < 0
      invariant forall j :: i < j < |ops| ==> !Wipes(ops[j])
      decreases i
    {
      assert Done(states[i], ops[i], vs[i], states[i + 1]);
      i := i - 1;
    }
    assert Done(states[i], ops[i], vs[i], states[i + 1]);
  }

  lemma {:induction false} MarkStays(ops: seq<Op>, vs: seq<int>, states: seq<State>, i: nat)
    requires OpsOk(ops) && RunDone(ops, vs, states) && i <= |ops| && states[i].held < 0
    requires forall j :: i <= j < |ops| ==> !Wipes(ops[j])
    ensures states[|ops|].held < 0
    decreases |ops| - i
  {
    if i < |ops| {
      assert Done(states[i], ops[i], vs[i], states[i + 1]);
      MarkStays(ops, vs, states, i + 1);
    }
  }

  /** Reads and then symbols, as a floor is read: once a symbol has been decoded from a book that
      is not empty, the end of the packet goes unnoticed, wherever it came. */
  lemma EndUnnoticed(ops: seq<Op>, vs: seq<int>, states: seq<State>, k: nat)
    requires OpsOk(ops) && RunDone(ops, vs, states) && states[0].held >= 0
    requires k < |ops| && Wipes(ops[k]) && forall j :: k < j < |ops| ==> !ops[j].Read?
    ensures states[|ops|].held >= 0
  {
    MarkTells(ops, vs, states);
  }

  /** An empty packet: the read fails, then the symbol, and the mark is gone. */
  lemma EndUnnoticedExample(n: nat, book: Book, lens: seq<nat>, addr: seq<nat>, vs: seq<int>, states: seq<State>)
    requires 0 < n <= 31 && Represents(book, lens, addr) && Decodable(lens) && !NoTables(book)
    requires RunDone([Read(n), Symbol(book, lens, addr)], vs, states) && states[0] == State([], 0)
    ensures vs == [0, -1] && states == [State([], 0), FAILED, State([], 0)]
  {
    var ops := [Read(n), Symbol(book, lens, addr)];
    assert Done(states[0], ops[0], vs[0], states[1]) && Done(states[1], ops[1], vs[1], states[2]);
  }

  // ----- messages -----

  /** The same operation `n` times. */
  function Times(op: Op, n: nat): (ops: seq<Op>)
    ensures |ops| == n
    decreases n, op
  {
    if n == 0 then [] else [op] + Times(op, n - 1)
  }

  lemma {:induction false} TimesOk(op: Op, n: nat)
    requires OpOk(op)
    ensures OpsOk(Times(op, n))
    decreases n
  {
    if n > 0 { TimesOk(op, n - 1); }
  }

  /** A message followed by anything is served symbol by symbol. */
  lemma {:induction false} MessageTaken(op: Op, symbols: seq<nat>, tail: seq<bool>, bits: seq<bool>)
    requires op.Symbol? && OpOk(op) && Coded(op.lens, symbols) && bits == EncodeAll(op.lens, op.addr, symbols) + tail
    requires OpsOk(Times(op, |symbols|))
    ensures TakeAll(bits, Times(op, |symbols|)) == Some((symbols, tail))
    decreases |symbols|
  {
    if symbols == [] {
      assert bits == tail;
    } else {
      var later := FirstTaken(op, symbols, tail, bits);
      TimesOk(op, |symbols| - 1);
      MessageTaken(op, symbols[1..], tail, later);
      TakeOneMore(bits, op, Times(op, |symbols| - 1), symbols[0], later, symbols[1..], tail);
      OneAndRest(symbols);
    }
  }

  lemma OneAndRest(symbols: seq<nat>)
    requires symbols != []
    ensures [symbols[0]] + symbols[1..] == symbols
  {
  }

  lemma {:induction false} FirstTaken(op: Op, symbols: seq<nat>, tail: seq<bool>, bits: seq<bool>)
    returns (later: seq<bool>)
    requires op.Symbol? && OpOk(op) && Coded(op.lens, symbols) && symbols != []
    requires bits == EncodeAll(op.lens, op.addr, symbols) + tail
    ensures later == EncodeAll(op.lens, op.addr, symbols[1..]) + tail && Take(bits, op) == Some((symbols[0], later))
  {
    later := EncodeAll(op.lens, op.addr, symbols[1..]) + tail;
    MessageSplit(op.lens, op.addr, symbols, tail);
    CodeSearched(op.lens, op.addr, symbols[0], later);
  }

  lemma TakeOneMore(bits: seq<bool>, op: Op, ops: seq<Op>, v: int, rest: seq<bool>, vs: seq<int>, last: seq<bool>)
    requires OpOk(op) && OpsOk(ops) && OpsOk([op] + ops) && Take(bits, op) == Some((v, rest))
    requires TakeAll(rest, ops) == Some((vs, last))
    ensures TakeAll(bits, [op] + ops) == Some(([v] + vs, last))
  {
    assert ([op] + ops)[1..] == ops;
  }

  /** A packet that carries a message, decoded symbol by symbol: the message comes out, and
      the reader stands right behind it. */
  method ReadMessage(f: Reader, book: Book, n: nat, lens: seq<nat>, addr: seq<nat>, ghost symbols: seq<nat>,
                     ghost tail: seq<bool>)
    returns (vs: seq<int>)
    requires f.Valid() && f.steady && f.validBits >= 0 && Represents(book, lens, addr) && Decodable(lens)
    requires Coded(lens, symbols) && n == |symbols| && f.Bits() == EncodeAll(lens, addr, symbols) + tail
    modifies f, f.packet
    ensures f.Valid() && f.steady && f.validBits >= 0 && vs == symbols && f.Bits() == tail
  {
    var op := Symbol(book, lens, addr);
    TimesOk(op, n);
    MessageTaken(op, symbols, tail, f.Bits());
    ghost var states;
    vs, states := RunOps(f, Times(op, n));
  }
}
