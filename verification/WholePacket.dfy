/** Looking ahead against reading: when the packet that a scan finds complete is the packet
    that the reader then gets without reaching the end of the data. */
module WholePacket {
  import opened Options
  import opened OggPackets
  import opened PacketReader

  // ----- what the reader gets, page by page -----

  /** The lacing values that the reader goes by on the page at `p`.  On an empty page that is
      the one left at the front of the table by the page before. */
  function TableRead(s: seq<byte>, p: nat, stale: byte): (l: seq<byte>)
    requires HeaderAt(s, p)
    ensures l != []
  {
    if TableAt(s, p) == [] then [stale] else TableAt(s, p)
  }

  function DataAt(s: seq<byte>, p: nat): (q: nat)
    requires HeaderAt(s, p)
    ensures p < q <= |s|
  {
    p + HEADER + |TableAt(s, p)|
  }

  /** At a page boundary inside a packet: the pages from `p` on end it, as the reader sees them. */
  predicate ReadsOn(s: seq<byte>, p: nat, stale: byte)
    requires p <= |s|
    decreases |s| - p
  {
    && HeaderAt(s, p) && ContinuedAt(s, p)
    && var l, d := TableRead(s, p, stale), DataAt(s, p);
       if HasShort(l) then d + Sum(l[..Run(l)]) <= |s| else d + Sum(l) <= |s| && ReadsOn(s, d + Sum(l), l[0])
  }

  /** The same with lacing values `l` left on the current page and their data from `p` on. */
  predicate ReadsTo(s: seq<byte>, l: seq<byte>, p: nat, stale: byte) {
    if HasShort(l) then p + Sum(l[..Run(l)]) <= |s| else p + Sum(l) <= |s| && ReadsOn(s, p + Sum(l), stale)
  }

  /** The same for a packet that begins at `c`. */
  predicate ReadsWhole(s: seq<byte>, c: Cursor)
    requires c.Ok()
  {
    if c.next >= 0 then ReadsTo(s, LacingRead(c), c.pos, c.segments[0])
    else
      && HeaderAt(s, c.pos) && !ContinuedAt(s, c.pos)
      && var l := TableRead(s, c.pos, c.segments[0]); ReadsTo(s, l, DataAt(s, c.pos), l[0])
  }

  /** The lacing values that the reader goes by on the rest of its page. */
  function LacingRead(c: Cursor): seq<byte>
    requires c.Ok()
  {
    if c.next < 0 then [] else if c.next < c.count then c.segments[c.next..c.count] else [c.segments[0]]
  }

  /** Where the page of `c` ends, if its segments all belong to one packet. */
  function PageEnd(c: Cursor): Cursor
    requires c.Ok()
  {
    c.(pos := c.pos + Sum(LacingRead(c)), next := -1)
  }

  predicate InsidePacket(c: Cursor) { c.Ok() && !c.last && c.left == 0 }

  lemma FullRun(l: seq<byte>)
    requires !HasShort(l)
    ensures l[..Run(l)] == l
  {
    AllFull(l);
  }

  lemma TakenAhead(s: seq<byte>, d: Cursor)
    requires d.Ok()
    ensures PacketAhead(s, d).Some? <==> d.pos + d.left <= |s| && (d.last || PacketAhead(s, Past(d)).Some?)
  {
    if !d.last && d.pos + d.left <= |s| { AheadOfPast(s, d); }
  }

  /** One segment: its bytes are there, and it ends the packet or the packet is ahead after it. */
  lemma AheadBySegmentOnPage(s: seq<byte>, c: Cursor, d: Cursor)
    requires InsidePacket(c) && c.next >= 0 && c.pos <= |s| && d == TakeSegment(c)
    ensures PacketAhead(s, c).Some? <==> d.pos + d.left <= |s| && (d.last || PacketAhead(s, Past(d)).Some?)
  {
    assert Past(c) == c;
    TakenAhead(s, d);
  }

  lemma TakeFirstRead(c: Cursor, d: Cursor)
    requires c.Ok() && c.next >= 0 && d == TakeSegment(c)
    ensures var l := LacingRead(c);
      && l != [] && d.left == l[0] && d.last == (d.left < 255)
      && Past(d).Ok() && LacingRead(Past(d)) == l[1..] && Sum(l) == d.left + Sum(l[1..])
  {
    if c.next < c.count { TakeFirst(c); }
  }

  /** The lacing values `l` of a page, with their data from `p` on, hold the rest of a packet:
      all of it, or all of the page if the packet goes on after it. */
  predicate InPage(s: seq<byte>, l: seq<byte>, p: nat, goesOn: bool) {
    if HasShort(l) then p + Sum(l[..Run(l)]) <= |s| else p + Sum(l) <= |s| && goesOn
  }

  lemma InPageShort(s: seq<byte>, l: seq<byte>, p: nat, goesOn: bool)
    requires l != [] && l[0] < 255
    ensures InPage(s, l, p, goesOn) <==> p + l[0] <= |s|
  {
    OneLacing(l);
    assert HasShort(l);
  }

  lemma InPageFull(s: seq<byte>, l: seq<byte>, p: nat, goesOn: bool)
    requires l != [] && l[0] == 255
    ensures InPage(s, l, p, goesOn) <==> InPage(s, l[1..], p + 255, goesOn)
  {
    ShortTail(l);
    if HasShort(l) { RunTail(l); }
  }

  lemma ShortTail(l: seq<byte>)
    requires l != [] && l[0] == 255
    ensures HasShort(l) <==> HasShort(l[1..])
  {
    if HasShort(l) { RunTail(l); }
    if HasShort(l[1..]) {
      var i :| 0 <= i < |l[1..]| && l[1..][i] < 255;
      assert l[i + 1] == l[1..][i];
    }
  }

  /** Within one page: a packet that ends there is ahead when its bytes are there; one that
      does not is ahead when the page's bytes are there and the next page goes on with it. */
  lemma {:induction false} AheadInPage(s: seq<byte>, c: Cursor, e: Cursor)
    requires InsidePacket(c) && c.pos <= |s| && e == PageEnd(c)
    ensures PacketAhead(s, c).Some? <==> InPage(s, LacingRead(c), c.pos, PacketAhead(s, e).Some?)
    decreases c.SegmentsLeft()
  {
    if c.next == -1 {
      assert e == c && Sum([]) == 0;
    } else {
      var d, goesOn := TakeSegment(c), PacketAhead(s, e).Some?;
      TakeFirstRead(c, d);
      AheadBySegmentOnPage(s, c, d);
      if d.last {
        InPageShort(s, LacingRead(c), c.pos, goesOn);
      } else {
        InPageFull(s, LacingRead(c), c.pos, goesOn);
        if c.pos + 255 <= |s| {
          AheadInPage(s, Past(d), e);
        } else {
          NotInPage(s, LacingRead(c)[1..], c.pos + 255, goesOn);
        }
      }
    }
  }

  lemma NotInPage(s: seq<byte>, l: seq<byte>, p: nat, goesOn: bool)
    requires p > |s|
    ensures !InPage(s, l, p, goesOn)
  {
  }

  lemma OnPageRead(s: seq<byte>, c: Cursor, d: Cursor)
    requires c.Ok() && HeaderAt(s, c.pos) && d == OnPage(s, c)
    ensures var l := TableRead(s, c.pos, c.segments[0]);
      LacingRead(d) == l && d.segments[0] == l[0] && d.next == 0 && d.pos == DataAt(s, c.pos)
  {
    var table := TableAt(s, c.pos);
    if table != [] {
      OnPageSegments(s, c, table);
      assert d.segments[0] == LeftSegments(d)[0];
    }
  }

  /** Inside a packet and on a page, the packet is ahead exactly when the reader's lacing values
      and pages end it within the data. */
  lemma {:induction false} PageIffAhead(s: seq<byte>, d: Cursor)
    requires InsidePacket(d) && d.next >= 0 && d.pos <= |s|
    ensures PacketAhead(s, d).Some? <==> ReadsTo(s, LacingRead(d), d.pos, d.segments[0])
    decreases |s| - d.pos
  {
    var l, e := LacingRead(d), PageEnd(d);
    AheadInPage(s, d, e);
    if !HasShort(l) && e.pos <= |s| {
      NoShortTail(l);
      FinishIffAhead(s, e);
    }
  }

  /** The same at a page boundary. */
  lemma {:induction false} FinishIffAhead(s: seq<byte>, c: Cursor)
    requires InsidePacket(c) && c.next == -1 && c.pos <= |s|
    ensures PacketAhead(s, c).Some? <==> ReadsOn(s, c.pos, c.segments[0])
    decreases |s| - c.pos
  {
    if HeaderAt(s, c.pos) && ContinuedAt(s, c.pos) {
      var d := OnPage(s, c);
      OnPageRead(s, c, d);
      SamePacket(s, c);
      PageIffAhead(s, d);
      ReadsOnStep(s, c.pos, c.segments[0]);
    } else {
      NotAhead(s, c);
    }
  }

  lemma NotAhead(s: seq<byte>, c: Cursor)
    requires InsidePacket(c) && c.next == -1 && !(HeaderAt(s, c.pos) && ContinuedAt(s, c.pos))
    ensures PacketAhead(s, c).None?
  {
    assert Past(c) == c;
  }

  /** The packet that begins at `c` can be read to its end within the data. */
  ghost predicate Readable(s: seq<byte>, c: Cursor)
    requires c.Ok()
  {
    BeginPacket(s, c).Some? && PacketAhead(s, BeginPacket(s, c).value).Some?
  }

  /** What the reader can read, for any stream and any position in it, in terms of pages and
      lacing values: as the scan, but for the flag of the first page and for empty pages, which
      count as one segment of the length left over from the page before. */
  lemma ReadableIff(s: seq<byte>, c: Cursor)
    requires c.Ok() && c.pos <= |s|
    ensures Readable(s, c) <==> ReadsWhole(s, c)
  {
    if c.next >= 0 {
      FreshRead(s, c);
    } else if HeaderAt(s, c.pos) && !ContinuedAt(s, c.pos) {
      var d := OnPage(s, c);
      OnPageRead(s, c, d);
      FreshRead(s, d);
    }
  }

  lemma FreshRead(s: seq<byte>, c: Cursor)
    requires c.Ok() && c.pos <= |s| && c.next >= 0
    ensures PacketAhead(s, Fresh(c)).Some? <==> ReadsTo(s, LacingRead(c), c.pos, c.segments[0])
  {
    assert LacingRead(Fresh(c)) == LacingRead(c);
    PageIffAhead(s, Fresh(c));
  }

  // ----- against the scan -----

  /** An empty page lies among the pages that finish the packet. */
  predicate EmptyAmong(s: seq<byte>, p: nat)
    requires p <= |s|
    decreases |s| - p
  {
    && HeaderAt(s, p)
    && var table := TableAt(s, p);
       var q := p + HEADER + |table| + Sum(table);
       || table == []
       || (!HasShort(table) && q <= |s| && EmptyAmong(s, q))
  }

  predicate EmptyOnWay(s: seq<byte>, c: Cursor)
    requires c.Ok() && c.pos <= |s|
  {
    if c.next == -1 then EmptyAmong(s, c.pos)
    else
      var l := LeftSegments(c);
      l == [] || (!HasShort(l) && c.pos + Sum(l) <= |s| && EmptyAmong(s, c.pos + Sum(l)))
  }

  /** The page that the packet would begin on says that it continues an older packet. */
  predicate StartsContinued(s: seq<byte>, c: Cursor) {
    c.next == -1 && HeaderAt(s, c.pos) && ContinuedAt(s, c.pos)
  }

  /** What the scan asks of lacing values `l` with their data from `p` on. */
  predicate ScansTo(s: seq<byte>, l: seq<byte>, p: nat, synced: bool) {
    var q := p + Sum(l[..Run(l)]);
    q <= |s| && (HasShort(l) || PagesFinish(s, q, false, synced))
  }

  /** After lacing values `l` that end no packet, an empty page comes among the next ones. */
  predicate EmptyAfter(s: seq<byte>, l: seq<byte>, p: nat) {
    !HasShort(l) && p + Sum(l) <= |s| && EmptyAmong(s, p + Sum(l))
  }

  /** The reader and the scan on one page, from the page after it. */
  lemma {:induction false} ReadsOnStep(s: seq<byte>, p: nat, stale: byte)
    requires p <= |s| && HeaderAt(s, p) && ContinuedAt(s, p)
    ensures ReadsOn(s, p, stale) <==> ReadsTo(s, TableRead(s, p, stale), DataAt(s, p), TableRead(s, p, stale)[0])
  {
  }

  lemma {:induction false} ScanStep(s: seq<byte>, p: nat, first: bool, synced: bool)
    requires p <= |s| && HeaderAt(s, p) && FlagFits(s, p, first, synced)
    ensures PagesFinish(s, p, first, synced) <==> ScansTo(s, TableAt(s, p), DataAt(s, p), synced)
  {
  }

  lemma {:induction false} NotEmptyStep(s: seq<byte>, p: nat)
    requires p <= |s| && HeaderAt(s, p) && !EmptyAmong(s, p)
    ensures TableAt(s, p) != [] && !EmptyAfter(s, TableAt(s, p), DataAt(s, p))
  {
  }

  lemma {:induction false} ScanAgrees(s: seq<byte>, p: nat, stale: byte, synced: bool)
    requires p <= |s| && !EmptyAmong(s, p)
    ensures ReadsOn(s, p, stale) <==> PagesFinish(s, p, false, synced)
    decreases |s| - p, 0
  {
    if HeaderAt(s, p) && ContinuedAt(s, p) {
      PageAgrees(s, p, stale, false, synced);
      ReadsOnStep(s, p, stale);
    }
  }

  lemma {:induction false} PageAgrees(s: seq<byte>, p: nat, stale: byte, first: bool, synced: bool)
    requires p <= |s| && HeaderAt(s, p) && FlagFits(s, p, first, synced) && !EmptyAmong(s, p)
    ensures var l := TableRead(s, p, stale); ReadsTo(s, l, DataAt(s, p), l[0]) <==> PagesFinish(s, p, first, synced)
    decreases |s| - DataAt(s, p), 1
  {
    var l := TableAt(s, p);
    NotEmptyStep(s, p);
    ScanStep(s, p, first, synced);
    ScanAgreesAfter(s, l, DataAt(s, p), l[0], synced);
  }

  lemma {:induction false} ScanAgreesAfter(s: seq<byte>, l: seq<byte>, p: nat, stale: byte, synced: bool)
    requires l != [] && p <= |s| && !EmptyAfter(s, l, p)
    ensures ReadsTo(s, l, p, stale) <==> ScansTo(s, l, p, synced)
    decreases |s| - p, 0
  {
    if !HasShort(l) {
      FullRun(l);
      NoShortTail(l);
      if p + Sum(l) <= |s| { ScanAgrees(s, p + Sum(l), stale, synced); }
    }
  }

  /** As long as no empty page lies on the way, the reader can read the packet exactly when the
      scan says "whole" and the packet does not begin on a continued page, which the scan
      accepts before it is in step. */
  lemma {:induction false} WholeIffReadable(s: seq<byte>, c: Cursor, synced: bool)
    requires c.Ok() && c.pos <= |s| && !EmptyOnWay(s, c)
    ensures Readable(s, c) <==> WholeAhead(s, c, synced) && !StartsContinued(s, c)
  {
    ReadableIff(s, c);
    if c.next >= 0 { WholeFromPage(s, c, synced); } else { WholeFromBoundary(s, c, synced); }
  }

  lemma {:induction false} WholeFromPage(s: seq<byte>, c: Cursor, synced: bool)
    requires c.Ok() && c.pos <= |s| && c.next >= 0 && !EmptyOnWay(s, c)
    ensures ReadsWhole(s, c) <==> WholeAhead(s, c, synced)
  {
    var l := LacingRead(c);
    SegmentsLeftOn(s, c);
    OnPageScan(s, c, l, synced);
    ScanAgreesAfter(s, l, c.pos, c.segments[0], synced);
  }

  lemma {:induction false} SegmentsLeftOn(s: seq<byte>, c: Cursor)
    requires c.Ok() && c.pos <= |s| && c.next >= 0 && !EmptyOnWay(s, c)
    ensures c.next < c.count && LacingRead(c) == c.segments[c.next..c.count] != []
  {
  }

  lemma {:induction false} OnPageScan(s: seq<byte>, c: Cursor, l: seq<byte>, synced: bool)
    requires c.Ok() && c.pos <= |s| && 0 <= c.next < c.count && l == c.segments[c.next..c.count]
    ensures EmptyAfter(s, l, c.pos) <==> EmptyOnWay(s, c)
    ensures WholeAhead(s, c, synced) <==> ScansTo(s, l, c.pos, synced)
  {
    assert l == LeftSegments(c) != [];
  }

  lemma {:induction false} WholeFromBoundary(s: seq<byte>, c: Cursor, synced: bool)
    requires c.Ok() && c.pos <= |s| && c.next == -1 && !EmptyOnWay(s, c)
    ensures ReadsWhole(s, c) <==> WholeAhead(s, c, synced) && !StartsContinued(s, c)
  {
    if HeaderAt(s, c.pos) && !ContinuedAt(s, c.pos) { PageAgrees(s, c.pos, c.segments[0], true, synced); }
  }

  /** A page that continues an older packet begins no packet.  In step the scan refuses it; out
      of step, as after a search for a page, it accepts it exactly when the rest of that older
      packet can be read, which the reader then drops. */
  lemma {:induction false} ContinuedStart(s: seq<byte>, c: Cursor)
    requires c.Ok() && c.pos <= |s| && StartsContinued(s, c)
    ensures !WholeAhead(s, c, true) && BeginPacket(s, c).None?
    ensures !EmptyOnWay(s, c) ==> (WholeAhead(s, c, false) <==> PacketAhead(s, Fresh(OnPage(s, c))).Some?)
  {
    var d := OnPage(s, c);
    OnPageRead(s, c, d);
    FreshRead(s, d);
    if !EmptyOnWay(s, c) { PageAgrees(s, c.pos, c.segments[0], true, false); }
  }

  /** At an empty page inside a packet the scan goes on behind its header.  The reader takes
      bytes from there, as many as the page before left at the front of the table: less than 255
      end the packet, 255 bring it to another page boundary. */
  lemma {:induction false} AtEmptyPage(s: seq<byte>, c: Cursor, synced: bool)
    requires InsidePacket(c) && c.next == -1 && EmptyPageAt(s, c.pos) && ContinuedAt(s, c.pos)
    ensures var p, n := c.pos + HEADER, c.segments[0];
      && (PagesFinish(s, c.pos, false, synced) <==> PagesFinish(s, p, false, synced))
      && (n < 255 ==> PacketAhead(s, c).Some? == (p + n <= |s|) &&
                      (p + n <= |s| ==> PacketAhead(s, c).value.0 == s[p..p + n]))
      && (n == 255 ==> PacketAhead(s, c).Some? == (p + n <= |s| && ReadsOn(s, p + n, n)))
  {
    EmptyPageScan(s, c.pos, synced);
    EmptyPageReads(s, c);
    if c.segments[0] < 255 && c.pos + HEADER + c.segments[0] <= |s| { EmptyPageBytes(s, c); }
  }

  lemma EmptyPageScan(s: seq<byte>, p: nat, synced: bool)
    requires EmptyPageAt(s, p) && ContinuedAt(s, p)
    ensures PagesFinish(s, p, false, synced) <==> PagesFinish(s, p + HEADER, false, synced)
  {
    ScanStep(s, p, false, synced);
    assert TableAt(s, p) == [] && Run([]) == 0 && Sum([]) == 0;
  }

  lemma EmptyPageReads(s: seq<byte>, c: Cursor)
    requires InsidePacket(c) && c.next == -1 && EmptyPageAt(s, c.pos) && ContinuedAt(s, c.pos)
    ensures var p, n := c.pos + HEADER, c.segments[0];
      PacketAhead(s, c).Some? == (p + n <= |s| && (n < 255 || ReadsOn(s, p + n, n)))
  {
    FinishIffAhead(s, c);
    ReadsOnStep(s, c.pos, c.segments[0]);
    OneValue(c.segments[0]);
  }

  lemma LastChunk(s: seq<byte>, d: Cursor)
    requires d.Ok() && d.last && d.pos + d.left <= |s|
    ensures PacketAhead(s, d) == Some((s[d.pos..d.pos + d.left], Past(d)))
  {
  }

  lemma OneSegment(s: seq<byte>, d: Cursor)
    requires InsidePacket(d) && d.next == 0 && d.segments[0] < 255 && d.pos + d.segments[0] <= |s|
    ensures PacketAhead(s, d) == Some((s[d.pos..d.pos + d.segments[0]], Past(TakeSegment(d))))
  {
    LastChunk(s, TakeSegment(d));
    AheadThrough(s, d, s[d.pos..d.pos + d.segments[0]], Past(TakeSegment(d)));
  }

  lemma EmptyPageBytes(s: seq<byte>, c: Cursor)
    requires InsidePacket(c) && c.next == -1 && EmptyPageAt(s, c.pos) && ContinuedAt(s, c.pos)
    requires c.segments[0] < 255 && c.pos + HEADER + c.segments[0] <= |s|
    ensures var p, n := c.pos + HEADER, c.segments[0];
      PacketAhead(s, c) == Some((s[p..p + n], Past(TakeSegment(OnPage(s, c)))))
  {
    SamePacket(s, c);
    OneSegment(s, OnPage(s, c));
  }

  lemma OneValue(n: byte)
    ensures Sum([n]) == n && Run([n]) == 1 && [n][..1] == [n] && (HasShort([n]) <==> n < 255)
  {
    assert [n][1..] == [] && [n][0] == n;
  }

  // ----- streams on which the scan and the reader disagree -----

  /** A page header of version 0 with the given flags and number of segments. */
  function HeaderBytes(flags: byte, n: byte): (h: seq<byte>)
    ensures |h| == HEADER
  {
    [0x4f, 0x67, 0x67, 0x53, 0, flags] + seq(20, _ => 0) + [n]
  }

  lemma HeaderThere(s: seq<byte>, p: nat, flags: byte, n: byte)
    requires p + HEADER + n <= |s| && s[p..p + HEADER] == HeaderBytes(flags, n)
    ensures HeaderAt(s, p) && (ContinuedAt(s, p) <==> flags % 2 == 1) && s[p + 26] == n
  {
    var h := s[p..p + HEADER];
    assert s[p] == h[0] && s[p + 1] == h[1] && s[p + 2] == h[2] && s[p + 3] == h[3];
    assert s[p + 4] == h[4] && s[p + 5] == h[5] && s[p + 26] == h[26];
  }

  /** One full segment, then an empty continued page, then a page that ends the packet. */
  function EmptyBetween(): (s: seq<byte>)
    ensures |s| == 338
  {
    HeaderBytes(0, 1) + [255] + seq(255, _ => 0) + HeaderBytes(1, 0) + HeaderBytes(1, 1) + [0]
  }

  lemma EmptyBetweenPages()
    ensures var s := EmptyBetween();
      && HeaderAt(s, 0) && !ContinuedAt(s, 0) && TableAt(s, 0) == [255]
      && HeaderAt(s, 283) && ContinuedAt(s, 283) && TableAt(s, 283) == []
      && HeaderAt(s, 310) && ContinuedAt(s, 310) && TableAt(s, 310) == [0]
  {
    var s := EmptyBetween();
    assert s[0..27] == HeaderBytes(0, 1) && s[283..310] == HeaderBytes(1, 0) && s[310..337] == HeaderBytes(1, 1);
    HeaderThere(s, 0, 0, 1);
    HeaderThere(s, 283, 1, 0);
    HeaderThere(s, 310, 1, 1);
    assert s[27] == 255 && s[337] == 0;
  }

  lemma EmptyBetweenScan(synced: bool)
    ensures PagesFinish(EmptyBetween(), 0, true, synced)
  {
    var s := EmptyBetween();
    EmptyBetweenPages();
    OneValue(0);
    OneValue(255);
    assert PagesFinish(s, 310, false, synced);
    assert Run([]) == 0 && Sum([]) == 0;
    assert PagesFinish(s, 283, false, synced);
  }

  /** From the start of this stream the scan finds the packet whole and the reader begins it,
      but cannot end it: at the empty page it takes the segment length left over from the page
      before, which runs off the data. */
  lemma EmptyPageExample(table: seq<byte>, synced: bool)
    requires |table| == 255
    ensures var s, c := EmptyBetween(), StartOfStream(table);
      && WholeAhead(s, c, synced) && BeginPacket(s, c).Some? && PacketAhead(s, BeginPacket(s, c).value).None?
      && var e := PageEnd(BeginPacket(s, c).value);
         && EmptyPageAt(s, e.pos) && ContinuedAt(s, e.pos)
         && var d := TakeSegment(OnPage(s, e)); d.left == 255 && d.pos + d.left > |s|
  {
    var s, c := EmptyBetween(), StartOfStream(table);
    EmptyBetweenPages();
    EmptyBetweenScan(synced);
    OneValue(255);
    OnPageRead(s, c, OnPage(s, c));
    ReadableIff(s, c);
  }

  /** Two packets begin on the first page, an empty one and one that goes on; then comes an
      empty continued page, then anything. */
  function EmptyPassed(body: seq<byte>, tail: seq<byte>): (s: seq<byte>)
    requires |body| == 255
    ensures |s| == 311 + |tail| && s[29..284] == body && s[311..] == tail
  {
    HeaderBytes(0, 2) + [0, 255] + body + HeaderBytes(1, 0) + tail
  }

  lemma EmptyPassedPages(body: seq<byte>, tail: seq<byte>)
    requires |body| == 255
    ensures var s := EmptyPassed(body, tail);
      && HeaderAt(s, 0) && !ContinuedAt(s, 0) && TableAt(s, 0) == [0, 255]
      && HeaderAt(s, 284) && ContinuedAt(s, 284) && TableAt(s, 284) == []
  {
    var s := EmptyPassed(body, tail);
    assert s[0..27] == HeaderBytes(0, 2) && s[284..311] == HeaderBytes(1, 0);
    HeaderThere(s, 0, 0, 2);
    HeaderThere(s, 284, 1, 0);
    assert s[27] == 0 && s[28] == 255;
  }

  /** Behind the first packet of that stream. */
  function BehindFirst(table: seq<byte>): Cursor
    requires |table| == 255
  {
    Cursor(29, [0, 255] + table[2..], 2, 1, true, 0)
  }

  lemma EmptyPassedFirst(table: seq<byte>, body: seq<byte>, tail: seq<byte>)
    requires |table| == 255 && |body| == 255
    ensures Begun(EmptyPassed(body, tail), StartOfStream(table), [], BehindFirst(table))
  {
    var s, c := EmptyPassed(body, tail), StartOfStream(table);
    EmptyPassedPages(body, tail);
    var d := Fresh(OnPage(s, c));
    assert d.segments == [0, 255] + table[2..] && d.segments[0] == 0;
    AheadAtEnd(s, TakeSegment(d));
    AheadThrough(s, d, [], TakeSegment(d));
  }

  lemma EmptyPassedSecond(table: seq<byte>, body: seq<byte>, tail: seq<byte>)
    requires |table| == 255 && |body| == 255
    ensures var s, c := EmptyPassed(body, tail), BehindFirst(table);
      Readable(s, c) && PacketAhead(s, BeginPacket(s, c).value).value.0 == body
  {
    var s, d := EmptyPassed(body, tail), Fresh(BehindFirst(table));
    EmptyPassedPages(body, tail);
    var e := Past(TakeSegment(d));
    AtEmptyPage(s, e, true);
    OneMoreSegment(s, d, [], PacketAhead(s, e).value.1);
    assert body + [] == body;
  }

  lemma EmptyPassedScan(table: seq<byte>, body: seq<byte>, tail: seq<byte>, synced: bool)
    requires |table| == 255 && |body| == 255
    ensures var s, c := EmptyPassed(body, tail), BehindFirst(table);
      EmptyOnWay(s, c) && (WholeAhead(s, c, synced) <==> PagesFinish(s, 311, false, synced))
  {
    var s, c := EmptyPassed(body, tail), BehindFirst(table);
    EmptyPassedPages(body, tail);
    OneValue(255);
    assert c.segments[c.next..c.count] == [255];
    OnPageScan(s, c, [255], synced);
    EmptyPageScan(s, 284, synced);
    EmptyHere(s, 284);
  }

  lemma EmptyHere(s: seq<byte>, p: nat)
    requires EmptyPageAt(s, p)
    ensures EmptyAmong(s, p)
  {
  }

  /** The reader can also get through an empty page: here the length left over is 0 and ends
      the second packet, whose bytes all come out whatever follows the empty page.  Whether the
      scan finds that packet whole depends on what follows. */
  lemma EmptyPagePassed(table: seq<byte>, body: seq<byte>, tail: seq<byte>, synced: bool)
    requires |table| == 255 && |body| == 255
    ensures var s, c := EmptyPassed(body, tail), BehindFirst(table);
      && Begun(s, StartOfStream(table), [], c) && EmptyOnWay(s, c)
      && Readable(s, c) && PacketAhead(s, BeginPacket(s, c).value).value.0 == body
      && (WholeAhead(s, c, synced) <==> PagesFinish(s, 311, false, synced))
      && (tail == [] ==> !WholeAhead(s, c, synced))
      && (tail == HeaderBytes(1, 1) + [0] ==> WholeAhead(s, c, synced))
  {
    EmptyPassedFirst(table, body, tail);
    EmptyPassedSecond(table, body, tail);
    EmptyPassedScan(table, body, tail, synced);
    if tail == HeaderBytes(1, 1) + [0] { EndingPage(EmptyPassed(body, tail), 311, synced); }
  }

  lemma EndingPage(s: seq<byte>, p: nat, synced: bool)
    requires p <= |s| && s[p..] == HeaderBytes(1, 1) + [0]
    ensures PagesFinish(s, p, false, synced)
  {
    assert s[p..p + HEADER] == s[p..][..HEADER] == HeaderBytes(1, 1);
    assert s[p + HEADER] == s[p..][HEADER] == 0;
    HeaderThere(s, p, 1, 1);
    OneValue(0);
    assert TableAt(s, p) == [0];
  }

  // ----- on the reader -----

  /** Decoding from a buffer of data: a packet is taken only when the scan finds it whole.
      If the reader's pages end it within the data, which without an empty page is so unless
      the packet begins on a continued page, it comes out byte for byte without reaching the
      end of the data; otherwise the reader meets that end or notes an error. */
  method ReadWhenPresent(r: Reader, previousLength: nat) returns (present: bool, bytes: seq<byte>)
    requires r.Valid()
    modifies r
    ensures r.Valid() && (present <==> WholeAhead(r.stream, old(r.C()), previousLength != 0))
    ensures present && ReadsWhole(r.stream, old(r.C())) ==>
              r.eof == old(r.eof) && r.error == old(r.error) && Begun(r.stream, old(r.C()), bytes, r.C())
    ensures present && !ReadsWhole(r.stream, old(r.C())) ==> r.Trouble()
    ensures !present ==> r.C() == old(r.C()) && r.eof == old(r.eof)
    ensures !EmptyOnWay(r.stream, old(r.C())) && !StartsContinued(r.stream, old(r.C())) ==>
              present == ReadsWhole(r.stream, old(r.C()))
  {
    ghost var c := r.C();
    ReadableIff(r.stream, c);
    if !EmptyOnWay(r.stream, c) { WholeIffReadable(r.stream, c, previousLength != 0); }
    present := r.IsWholePacketPresent(previousLength);
    bytes := [];
    if present {
      var ok := r.StartPacket();
      if ok { bytes := r.ReadPacket(); }
    }
  }

  /** The packet that begins at `c` has the given bytes and ends at `e`. */
  ghost predicate Begun(s: seq<byte>, c: Cursor, bytes: seq<byte>, e: Cursor)
    requires c.Ok()
  {
    Readable(s, c) && PacketAhead(s, BeginPacket(s, c).value).value == (bytes, e)
  }

  lemma FirstOfPackets(s: seq<byte>, c: Cursor)
    requires c.Ok() && c.pos <= |s| && ReadPackets(s, c) != []
    ensures Readable(s, c)
    ensures var (bytes, e) := PacketAhead(s, BeginPacket(s, c).value).value;
              e.pos <= |s| && ReadPackets(s, c) == [bytes] + ReadPackets(s, e)
  {
  }

  lemma MovePacket(done: seq<seq<byte>>, bytes: seq<byte>, left: seq<seq<byte>>)
    ensures done + ([bytes] + left) == done + [bytes] + left
  {
  }

  /** Reads packets one after the other, as many as there are. */
  method ReadFirst(r: Reader, n: nat) returns (packets: seq<seq<byte>>)
    requires r.Valid() && r.Noted() && n <= |ReadPackets(r.stream, r.C())|
    modifies r
    ensures r.Valid() && r.eof == old(r.eof) && packets == ReadPackets(r.stream, old(r.C()))[..n]
  {
    packets := [];
    for i := 0 to n
      invariant r.Valid() && r.Noted() && r.eof == old(r.eof) && |packets| == i
      invariant packets + ReadPackets(r.stream, r.C()) == ReadPackets(r.stream, old(r.C()))
    {
      packets := ReadOne(r, packets);
    }
  }

  method ReadOne(r: Reader, packets: seq<seq<byte>>) returns (more: seq<seq<byte>>)
    requires r.Valid() && r.Noted() && ReadPackets(r.stream, r.C()) != []
    modifies r
    ensures r.Valid() && r.Noted() && r.eof == old(r.eof) && |more| == |packets| + 1
    ensures more + ReadPackets(r.stream, r.C()) == packets + ReadPackets(r.stream, old(r.C()))
  {
    ghost var c := r.C();
    FirstOfPackets(r.stream, c);
    var _ := r.StartPacket();
    var bytes := r.ReadPacket();
    MovePacket(packets, bytes, ReadPackets(r.stream, r.C()));
    more := packets + [bytes];
  }

  // ----- whole streams -----

  lemma {:induction false} NoEmptyAmong(s: seq<byte>, p: nat, pages: seq<Page>)
    requires p <= |s| && PagesOk(pages) && s[p..] == Encode(pages)
    ensures !EmptyAmong(s, p)
    decreases |pages|
  {
    if pages == [] {
      assert |s[p..]| == 0;
    } else {
      var q := PageFollows(s, p, pages[0], Encode(pages[1..]));
      NoEmptyAmong(s, q, pages[1..]);
      NotEmptyHere(s, p, q);
    }
  }

  lemma PageFollows(s: seq<byte>, p: nat, g: Page, rest: seq<byte>) returns (q: nat)
    requires g.Ok() && p <= |s| && s[p..] == g.Encode() + rest
    ensures HeaderAt(s, p) && s[p + 26] > 0 && q == p + HEADER + |TableAt(s, p)| + Sum(TableAt(s, p)) <= |s|
    ensures s[q..] == rest
  {
    OnePageBytes(s, p, g, rest);
    q := p + HEADER + |g.lacing| + |g.body|;
  }

  lemma NotEmptyHere(s: seq<byte>, p: nat, q: nat)
    requires HeaderAt(s, p) && s[p + 26] > 0 && q == p + HEADER + |TableAt(s, p)| + Sum(TableAt(s, p)) <= |s|
    requires !EmptyAmong(s, q)
    ensures !EmptyAmong(s, p)
  {
  }

  /** In a stream of non-empty pages nothing misleads the scan. */
  lemma {:induction false} NothingMisleads(s: seq<byte>, c: Cursor, pages: seq<Page>)
    requires At(s, c, pages) && FlagsAhead(c, pages, false)
    ensures !EmptyOnWay(s, c) && !StartsContinued(s, c)
  {
    NoEmptyAmong(s, c.pos + Sum(LeftSegments(c)), pages);
    if c.next == -1 {
      if pages == [] { assert |s[c.pos..]| == 0; } else { NextPage(s, c, pages); }
    }
  }

  lemma BehindPacket(s: seq<byte>, c: Cursor, pages: seq<Page>) returns (pages': seq<Page>)
    requires At(s, c, pages) && FlagsAhead(c, pages, false) && Readable(s, c)
    ensures var e := PacketAhead(s, BeginPacket(s, c).value).value.1; At(s, e, pages') && FlagsAhead(e, pages', false)
  {
    if LacingAhead(c, pages) == [] { NothingLeft(s, c, pages); }
    var d, pages1 := BeginOnPages(s, c, pages);
    if !HasShort(LacingAhead(c, pages)) { NoPacketOnPages(s, d, pages1); }
    var e;
    e, pages' := PacketOnPages(s, d, pages1);
  }

  lemma NoPackets(s: seq<byte>, c: Cursor)
    requires c.Ok() && c.pos <= |s| && !Readable(s, c)
    ensures ReadPackets(s, c) == []
  {
  }

  /** Reads packets as long as the scan finds the next one whole.  On a stream of non-empty
      pages that stops after exactly the packets of its lacing runs, without reaching the end
      of the data, whatever the overlap after the first packet is. */
  method ReadAll(r: Reader, overlap: nat, ghost pages: seq<Page>) returns (packets: seq<seq<byte>>)
    requires r.Valid() && At(r.stream, r.C(), pages) && FlagsAhead(r.C(), pages, false)
    modifies r
    ensures r.Valid() && r.eof == old(r.eof) && packets == ReadPackets(r.stream, old(r.C()))
  {
    ghost var rest, all := pages, ReadPackets(r.stream, r.C());
    packets := [];
    var present, previousLength := true, 0;
    while present
      invariant r.Valid() && r.eof == old(r.eof)
      invariant At(r.stream, r.C(), rest) && FlagsAhead(r.C(), rest, false)
      invariant packets + ReadPackets(r.stream, r.C()) == all
      invariant !present ==> ReadPackets(r.stream, r.C()) == []
      decreases present, |all| - |packets|
    {
      present, packets, rest := ReadNext(r, previousLength, packets, rest);
      previousLength := overlap;
    }
  }

  /** The same from the start of an encoded stream. */
  method ReadStream(pages: seq<Page>, overlap: nat) returns (packets: seq<seq<byte>>)
    requires PagesOk(pages) && FlagsOk(false, pages)
    ensures |Bodies(pages)| == Sum(Lacings(pages)) && packets == Packets(Lacings(pages), Bodies(pages))
  {
    var r := new Reader(Encode(pages), true);
    StreamRoundTrip(pages, r.segments);
    StartsAt(pages, r.segments);
    packets := ReadAll(r, overlap, pages);
  }

  method ReadNext(r: Reader, previousLength: nat, packets: seq<seq<byte>>, ghost pages: seq<Page>)
    returns (present: bool, more: seq<seq<byte>>, ghost pages': seq<Page>)
    requires r.Valid() && At(r.stream, r.C(), pages) && FlagsAhead(r.C(), pages, false)
    modifies r
    ensures r.Valid() && r.eof == old(r.eof) && At(r.stream, r.C(), pages') && FlagsAhead(r.C(), pages', false)
    ensures more + ReadPackets(r.stream, r.C()) == packets + ReadPackets(r.stream, old(r.C()))
    ensures |more| == |packets| + if present then 1 else 0
    ensures !present ==> ReadPackets(r.stream, r.C()) == []
  {
    ghost var c := r.C();
    NothingMisleads(r.stream, c, pages);
    ReadableIff(r.stream, c);
    var bytes;
    present, bytes := ReadWhenPresent(r, previousLength);
    more, pages' := packets, pages;
    if present {
      pages' := OnePacketOn(r.stream, c, pages, bytes, r.C(), packets);
      more := packets + [bytes];
    } else {
      NoPackets(r.stream, c);
    }
  }

  lemma OnePacketOn(s: seq<byte>, c: Cursor, pages: seq<Page>, bytes: seq<byte>, e: Cursor, packets: seq<seq<byte>>)
    returns (pages': seq<Page>)
    requires At(s, c, pages) && FlagsAhead(c, pages, false) && Begun(s, c, bytes, e) && e.Ok() && e.pos <= |s|
    ensures At(s, e, pages') && FlagsAhead(e, pages', false)
    ensures packets + [bytes] + ReadPackets(s, e) == packets + ReadPackets(s, c)
  {
    pages' := BehindPacket(s, c, pages);
    PacketThen(s, c, bytes, e);
    MovePacket(packets, bytes, ReadPackets(s, e));
  }

  lemma PacketThen(s: seq<byte>, c: Cursor, bytes: seq<byte>, e: Cursor)
    requires c.Ok() && c.pos <= |s| && Begun(s, c, bytes, e) && e.Ok() && e.pos <= |s|
    ensures ReadPackets(s, c) == [bytes] + ReadPackets(s, e)
  {
  }
}
