/** The two-ended arena: what stays is handed out from the bottom, scratch space from the top. */
module Arena {
  import opened Options

  datatype Block = Block(start: int, size: nat) {
    function End(): int { start + size }
  }

  predicate Apart(a: Block, b: Block) {
    a.End() <= b.start || b.End() <= a.start
  }

  /** Up to the next multiple of 8. */
  function RoundUp(sz: nat): (r: nat)
    ensures r % 8 == 0 && sz <= r < sz + 8
  {
    (sz + 7) / 8 * 8
  }

  /** Blocks that stay: one after the other from the bottom. */
  predicate Rising(blocks: seq<Block>, offset: int) {
    && (forall i :: 0 <= i < |blocks| ==> blocks[i].start % 8 == 0 && 0 <= blocks[i].start && blocks[i].End() <= offset)
    && (forall i, j :: 0 <= i < j < |blocks| ==> blocks[i].End() <= blocks[j].start)
  }

  /** Scratch blocks: one below the other from the top, without gaps. */
  predicate Falling(blocks: seq<Block>, offset: int, top: int)
    decreases |blocks|
  {
    if blocks == [] then offset == top
    else
      var m := |blocks| - 1;
      blocks[m].start == offset && offset % 8 == 0 && Falling(blocks[..m], blocks[m].End(), top)
  }

  lemma {:induction false} FallingBlocks(blocks: seq<Block>, offset: int, top: int)
    requires Falling(blocks, offset, top)
    ensures offset <= top
    ensures forall i :: 0 <= i < |blocks| ==>
              offset <= blocks[i].start && blocks[i].End() <= top && blocks[i].start % 8 == 0
    ensures forall i, j :: 0 <= i < j < |blocks| ==> blocks[j].End() <= blocks[i].start
    decreases |blocks|
  {
    if blocks != [] {
      var m := |blocks| - 1;
      FallingBlocks(blocks[..m], blocks[m].End(), top);
      assert forall i :: 0 <= i < m ==> blocks[i] == blocks[..m][i];
    }
  }

  lemma FallingMore(blocks: seq<Block>, offset: int, top: int, size: nat)
    requires Falling(blocks, offset, top) && (offset - size) % 8 == 0
    ensures Falling(blocks + [Block(offset - size, size)], offset - size, top)
  {
    assert (blocks + [Block(offset - size, size)])[..|blocks|] == blocks;
  }

  class Arena {
    const length: nat
    var setupOffset: int
    var tempOffset: int
    ghost var setups: seq<Block>
    ghost var temps: seq<Block>  // the latest last

    ghost predicate Valid()
      reads this
    {
      && length % 8 == 0 && setupOffset % 8 == 0 && tempOffset % 8 == 0
      && 0 <= setupOffset <= tempOffset <= length
      && Rising(setups, setupOffset) && Falling(temps, tempOffset, length)
    }

    constructor (bytes: nat)
      ensures Valid() && length == bytes / 8 * 8 && setupOffset == 0 && tempOffset == length && setups == []
      ensures temps == []
    {
      length := bytes / 8 * 8;
      setupOffset, tempOffset := 0, bytes / 8 * 8;
      setups, temps := [], [];
    }

    /** Any two live blocks are apart, whichever end they come from. */
    lemma BlocksApart()
      requires Valid()
      ensures forall i, j :: 0 <= i < j < |setups| ==> Apart(setups[i], setups[j])
      ensures forall i, j :: 0 <= i < j < |temps| ==> Apart(temps[i], temps[j])
      ensures forall i, j :: 0 <= i < |setups| && 0 <= j < |temps| ==> Apart(setups[i], temps[j])
      ensures forall j :: 0 <= j < |temps| ==> temps[j].start % 8 == 0 && temps[j].End() <= length
    {
      FallingBlocks(temps, tempOffset, length);
    }

    method SetupMalloc(size: nat) returns (p: Option<int>)
      requires Valid()
      modifies this`setupOffset, this`setups
      ensures Valid()
      ensures p.Some? <==> old(setupOffset) + RoundUp(size) <= tempOffset
      ensures p.Some? ==> setups == old(setups) + [Block(p.value, RoundUp(size))]
      ensures p.None? ==> setups == old(setups) && setupOffset == old(setupOffset)
    {
      var sz := RoundUp(size);
      if setupOffset + sz > tempOffset { return None; }
      p := Some(setupOffset);
      setups := setups + [Block(setupOffset, sz)];
      setupOffset := setupOffset + sz;
    }

    method SetupTempMalloc(size: nat) returns (p: Option<int>)
      requires Valid()
      modifies this`tempOffset, this`temps
      ensures Valid()
      ensures p.Some? <==> old(tempOffset) - RoundUp(size) >= setupOffset
      ensures p.Some? && size > 0 ==> temps == old(temps) + [Block(p.value, RoundUp(size))]
      ensures p.None? || size == 0 ==> temps == old(temps) && tempOffset == old(tempOffset)
    {
      var sz := RoundUp(size);
      if tempOffset - sz < setupOffset { return None; }
      FallingMore(temps, tempOffset, length, sz);
      tempOffset := tempOffset - sz;
      if size > 0 { temps := temps + [Block(tempOffset, sz)]; }
      p := Some(tempOffset);
    }

    /** Gives the latest scratch block back; nothing, if the size is zero. */
    method SetupTempFree(size: nat)
      requires Valid() && (size == 0 || (temps != [] && temps[|temps| - 1].size == RoundUp(size)))
      modifies this`tempOffset, this`temps
      ensures Valid()
      ensures temps == if size == 0 then old(temps) else old(temps)[..|old(temps)| - 1]
      ensures size == 0 ==> tempOffset == old(tempOffset)
    {
      FallingBlocks(temps, tempOffset, length);
      tempOffset := tempOffset + RoundUp(size);
      if size > 0 { temps := temps[..|temps| - 1]; }
    }
  }

  /** The offset is determined by the live scratch blocks. */
  lemma SameTop(blocks: seq<Block>, a: int, b: int, top: int)
    requires Falling(blocks, a, top) && Falling(blocks, b, top)
    ensures a == b
  {
  }

  // ----- the allocations of reading a codebook -----

  /** What a codebook's header says, and which of the checks on it fail. */
  datatype Header = Header(entries: nat, dimensions: nat, sparse: bool, coded: nat, long: nat,
                           lengthsOk: bool, codeOk: bool, lookupType: nat, lookupValues: nat,
                           valuesOk: bool, expandOk: bool)

  /** Every path through a codebook that succeeds gives all its scratch space back. */
  method ReadCodebook(a: Arena, h: Header) returns (ok: bool)
    requires a.Valid()
    modifies a
    ensures a.Valid() && old(a.setups) <= a.setups
    ensures ok ==> a.temps == old(a.temps) && a.tempOffset == old(a.tempOffset)
  {
    ghost var before := a.temps;
    var sparse;
    ok, sparse := LengthSpace(a, h);
    if !ok { return; }
    ok := BuildTables(a, h, sparse, before);
    if !ok || h.lookupType > 2 { return false; }
    if h.lookupType > 0 { ok := ReadLookup(a, h, sparse); }
    if ok { SameTop(before, a.tempOffset, old(a.tempOffset), a.length); }
  }

  // Space for the lengths; a sparse book with a quarter of its symbols coded becomes dense.
  method LengthSpace(a: Arena, h: Header) returns (ok: bool, sparse: bool)
    requires a.Valid()
    modifies a
    ensures a.Valid() && old(a.setups) <= a.setups
    ensures ok ==> sparse == (h.sparse && h.coded < h.entries / 4)
    ensures ok ==> if sparse then h.entries > 0 && Pushed(old(a.temps), a.temps, h.entries) else a.temps == old(a.temps)
  {
    sparse := h.sparse;
    var p;
    if sparse { p := a.SetupTempMalloc(h.entries); } else { p := a.SetupMalloc(h.entries); }
    ok := p.Some? && h.lengthsOk;
    if ok && sparse && h.coded >= h.entries / 4 {
      p := a.SetupMalloc(h.entries);
      if p.None? { return false, sparse; }
      a.SetupTempFree(h.entries);
      sparse := false;
    }
  }

  method BuildTables(a: Arena, h: Header, sparse: bool, ghost before: seq<Block>) returns (ok: bool)
    requires a.Valid() && (if sparse then h.entries > 0 && Pushed(before, a.temps, h.entries) else a.temps == before)
    modifies a
    ensures a.Valid() && old(a.setups) <= a.setups && (ok ==> a.temps == before)
  {
    var sorted := if sparse then h.coded else h.long;
    ok := CodewordSpace(a, h.entries, sparse, sorted, before);
    if !ok { return; }
    if !h.codeOk {
      if sparse { a.SetupTempFree(0); }
      return false;
    }
    ok := SortedSpace(a, sorted);
    if ok && sparse { FreeTables(a, h.entries, sorted, before); }
  }

  method SortedSpace(a: Arena, sorted: nat) returns (ok: bool)
    requires a.Valid()
    modifies a`setupOffset, a`setups
    ensures a.Valid() && old(a.setups) <= a.setups
  {
    if sorted > 0 {
      var p := a.SetupMalloc(4 * (sorted + 1));
      if p.None? { return false; }
      p := a.SetupMalloc(4 * (sorted + 1));
      if p.None? { return false; }
    }
    ok := true;
  }

  // Gives the values, the codewords and the lengths of a sparse book back.
  method FreeTables(a: Arena, entries: nat, sorted: nat, ghost before: seq<Block>)
    requires a.Valid() && entries > 0
    requires if sorted == 0 then Pushed(before, a.temps, entries) else PushedThree(before, a.temps, entries, sorted)
    modifies a`tempOffset, a`temps
    ensures a.Valid() && a.temps == before
  {
    a.SetupTempFree(4 * sorted);
    a.SetupTempFree(4 * sorted);
    a.SetupTempFree(entries);
  }

  /** One more scratch block, of the given size. */
  ghost predicate Pushed(before: seq<Block>, temps: seq<Block>, size: nat) {
    |temps| == |before| + 1 && temps[..|before|] == before && temps[|before|].size == RoundUp(size)
  }

  ghost predicate PushedThree(before: seq<Block>, temps: seq<Block>, entries: nat, sorted: nat) {
    && |temps| == |before| + 3 && temps[..|before|] == before && temps[|before|].size == RoundUp(entries)
    && temps[|before| + 1].size == temps[|before| + 2].size == RoundUp(4 * sorted)
  }

  method CodewordSpace(a: Arena, entries: nat, sparse: bool, sorted: nat, ghost before: seq<Block>) returns (ok: bool)
    requires a.Valid() && (if sparse then Pushed(before, a.temps, entries) else a.temps == before)
    modifies a
    ensures a.Valid() && old(a.setups) <= a.setups
    ensures ok ==>
      if !sparse then a.temps == before
      else if sorted == 0 then Pushed(before, a.temps, entries)
      else PushedThree(before, a.temps, entries, sorted)
  {
    var p;
    if !sparse {
      p := a.SetupMalloc(4 * entries);
      return p.Some?;
    }
    if sorted > 0 {
      p := a.SetupMalloc(sorted);
      if p.None? { return false; }
      p := a.SetupTempMalloc(4 * sorted);
      if p.None? { return false; }
      p := a.SetupTempMalloc(4 * sorted);
      if p.None? { return false; }
    }
    ok := true;
  }

  method ReadLookup(a: Arena, h: Header, sparse: bool) returns (ok: bool)
    requires a.Valid()
    modifies a
    ensures a.Valid() && old(a.setups) <= a.setups && (ok ==> a.temps == old(a.temps))
  {
    if h.lookupValues == 0 { return false; }
    var p := a.SetupTempMalloc(2 * h.lookupValues);
    if p.None? { return false; }
    if !h.valuesOk {
      a.SetupTempFree(2 * h.lookupValues);
      return false;
    }
    ok := ExpandLookup(a, h, sparse);
    a.SetupTempFree(2 * h.lookupValues);
  }

  method ExpandLookup(a: Arena, h: Header, sparse: bool) returns (ok: bool)
    requires a.Valid()
    modifies a`setupOffset, a`setups
    ensures a.Valid() && old(a.setups) <= a.setups
  {
    var p;
    if h.lookupType == 1 {
      if sparse && h.coded == 0 { return true; }
      p := a.SetupMalloc(4 * ((if sparse then h.coded else h.entries) * h.dimensions));
      return p.Some? && h.expandOk;
    }
    p := a.SetupMalloc(4 * h.lookupValues);
    ok := p.Some?;
  }

  /** After all codebooks have been read the scratch space is empty again. */
  method ReadCodebooks(a: Arena, headers: seq<Header>) returns (ok: bool)
    requires a.Valid() && a.tempOffset == a.length && a.temps == []
    modifies a
    ensures a.Valid() && (ok ==> a.tempOffset == a.length && a.temps == [])
  {
    for i := 0 to |headers|
      invariant a.Valid() && a.tempOffset == a.length && a.temps == []
    {
      ok := ReadCodebook(a, headers[i]);
      if !ok { return; }
    }
    ok := true;
  }
}
