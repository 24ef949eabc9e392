/** Ogg pages and packets (sections 5 and 6 of RFC 3533): what a reader positioned inside a
    byte stream has ahead of it, and how that relates to a sequence of pages. */
module OggPackets {
  import opened Options

  type byte = x: int | 0 <= x < 256

  /** The number that four bytes spell, least significant first. */
  function Number(a: int, b: int, c: int, d: int): int {
    a + 0x100 * b + 0x1_0000 * c + 0x100_0000 * d
  }

  // ----- the reader's position -----

  /** Byte position, segment table of the current page, next segment in it (-1 for "next
      page"), whether the current segment ends its packet, and its unread bytes. */
  datatype Cursor = Cursor(pos: nat, segments: seq<byte>, count: nat, next: int, last: bool, left: nat)
  {
    predicate Ok() {
      |segments| == 255 && count <= 255 && -1 <= next && (next < count || next <= 0)
    }

    function SegmentsLeft(): (n: nat) {
      if next < 0 then 0 else if next < count then count - next else 1
    }
  }

  const HEADER: nat := 27

  predicate Captured(s: seq<byte>, p: nat) {
    p + 4 <= |s| && s[p] == 0x4f && s[p + 1] == 0x67 && s[p + 2] == 0x67 && s[p + 3] == 0x53
  }

  /** A complete page header, segment table included, starts at `p`. */
  predicate HeaderAt(s: seq<byte>, p: nat) {
    p + HEADER <= |s| && Captured(s, p) && s[p + 4] == 0 && p + HEADER + s[p + 26] <= |s|
  }

  predicate ContinuedAt(s: seq<byte>, p: nat)
    requires HeaderAt(s, p)
  {
    s[p + 5] % 2 == 1
  }

  /** The cursor once the page at its position has been started. */
  function OnPage(s: seq<byte>, c: Cursor): (r: Cursor)
    requires c.Ok() && HeaderAt(s, c.pos)
    ensures r.Ok() && r.pos > c.pos && r.pos <= |s|
  {
    var p, n := c.pos, s[c.pos + 26] as nat;
    c.(pos := p + HEADER + n, segments := s[p + HEADER..p + HEADER + n] + c.segments[n..], count := n, next := 0)
  }

  function TakeSegment(c: Cursor): (r: Cursor)
    requires c.Ok() && c.next >= 0
    ensures r.Ok() && r.pos == c.pos && r.SegmentsLeft() < c.SegmentsLeft()
  {
    var len := c.segments[c.next];
    c.(next := if c.next + 1 >= c.count then -1 else c.next + 1, last := len < 255, left := len)
  }

  /** The next segment of a packet that goes on, if it is there: the page that carries it
      must say that it continues a packet.  On a page without segments that is the length
      which the page before left at the front of the table. */
  function Advance(s: seq<byte>, c: Cursor): (r: Option<Cursor>)
    requires c.Ok()
    ensures r.Some? ==> r.value.Ok() && r.value.pos >= c.pos
    ensures r.Some? && r.value.pos == c.pos ==> r.value.SegmentsLeft() < c.SegmentsLeft()
    ensures r.Some? ==> r.value.pos <= |s| || r.value.pos == c.pos
  {
    if c.next >= 0 then Some(TakeSegment(c))
    else if HeaderAt(s, c.pos) && ContinuedAt(s, c.pos) then Some(TakeSegment(OnPage(s, c)))
    else None
  }

  function Past(c: Cursor): Cursor { c.(pos := c.pos + c.left, left := 0) }

  /** The bytes of the current packet that are still to come, and the position after them,
      provided that all of them are present. */
  function PacketAhead(s: seq<byte>, c: Cursor): (r: Option<(seq<byte>, Cursor)>)
    requires c.Ok()
    ensures r.Some? ==> r.value.1.Ok() && r.value.1.left == 0 && r.value.1.last && c.pos <= r.value.1.pos <= |s|
    ensures r.Some? && !c.last && r.value.1.pos == c.pos ==> r.value.1.SegmentsLeft() < c.SegmentsLeft()
    decreases if c.pos <= |s| then |s| - c.pos else 0, c.SegmentsLeft()
  {
    if c.pos + c.left > |s| then None
    else
      var chunk := s[c.pos..c.pos + c.left];
      if c.last then Some((chunk, Past(c)))
      else match Advance(s, Past(c))
        case None => None
        case Some(d) =>
          match PacketAhead(s, d)
          case None => None
          case Some((rest, e)) => Some((chunk + rest, e))
  }

  lemma DropFirst(s: seq<byte>, p: nat, n: nat)
    requires 0 < n && p + n <= |s|
    ensures s[p..p + n] != [] && s[p..p + n][0] == s[p] && s[p..p + n][1..] == s[p + 1..p + n]
  {
  }

  lemma DropJoined(a: seq<byte>, b: seq<byte>)
    requires a != []
    ensures (a + b)[0] == a[0] && (a + b)[1..] == a[1..] + b
  {
  }

  /** Reading one byte takes the first byte off what is ahead. */
  lemma AheadByByte(s: seq<byte>, c: Cursor)
    requires c.Ok() && c.left > 0 && PacketAhead(s, c).Some?
    ensures var d := c.(pos := c.pos + 1, left := c.left - 1); var (bytes, e) := PacketAhead(s, c).value;
      && c.pos < |s| && bytes != [] && bytes[0] == s[c.pos] && PacketAhead(s, d) == Some((bytes[1..], e))
  {
    var d := c.(pos := c.pos + 1, left := c.left - 1);
    assert Past(d) == Past(c);
    DropFirst(s, c.pos, c.left);
    if !c.last {
      var x := Advance(s, Past(c)).value;
      DropJoined(s[c.pos..c.pos + c.left], PacketAhead(s, x).value.0);
    }
  }

  /** At the end of a packet nothing is ahead. */
  lemma AheadAtEnd(s: seq<byte>, c: Cursor)
    requires c.Ok() && c.left == 0 && c.last && c.pos <= |s|
    ensures PacketAhead(s, c) == Some(([], c))
  {
    assert s[c.pos..c.pos] == [] && Past(c) == c;
  }

  /** Going to the next segment changes nothing about what is ahead. */
  lemma AheadBySegment(s: seq<byte>, c: Cursor)
    requires c.Ok() && c.left == 0 && !c.last && PacketAhead(s, c).Some?
    ensures Advance(s, c).Some? && PacketAhead(s, Advance(s, c).value) == PacketAhead(s, c)
  {
    assert Past(c) == c && s[c.pos..c.pos] == [];
    var (rest, e) := PacketAhead(s, Advance(s, c).value).value;
    assert [] + rest == rest;
  }

  // ----- reading on where the data ends -----

  /** A page header that the end of the data cuts off before its segment count: the reader
      takes what is missing for zeros and starts the page. */
  predicate CutHeader(s: seq<byte>, p: nat) {
    Captured(s, p) && p + HEADER > |s| && (p + 4 < |s| ==> s[p + 4] == 0)
  }

  predicate Opens(s: seq<byte>, p: nat) { HeaderAt(s, p) || CutHeader(s, p) }

  /** The reader takes the page at `p` for one that continues a packet. */
  predicate FlagRead(s: seq<byte>, p: nat) { p + 5 < |s| && s[p + 5] % 2 == 1 }

  /** The cursor once the page at its position has been started, whole header or not. */
  function OpenPage(s: seq<byte>, c: Cursor): (r: Cursor)
    requires c.Ok() && Opens(s, c.pos)
    ensures r.Ok() && c.pos < r.pos <= |s|
  {
    if HeaderAt(s, c.pos) then OnPage(s, c) else c.(pos := |s|, count := 0, next := 0)
  }

  /** The next segment of a packet that goes on, as the reader finds it. */
  function NextTaken(s: seq<byte>, c: Cursor): (r: Option<Cursor>)
    requires c.Ok() && c.pos <= |s|
    ensures r.Some? ==> r.value.Ok() && c.pos <= r.value.pos <= |s|
    ensures r.Some? && r.value.pos == c.pos ==> r.value.SegmentsLeft() < c.SegmentsLeft()
    ensures Advance(s, c).Some? ==> r == Advance(s, c)
  {
    if c.next >= 0 then Some(TakeSegment(c))
    else if Opens(s, c.pos) && FlagRead(s, c.pos) then Some(TakeSegment(OpenPage(s, c)))
    else None
  }

  /** `n` bytes from `p` on; the reader sees zeros behind the end of the data. */
  function Padded(s: seq<byte>, p: nat, n: nat): (r: seq<byte>)
    ensures |r| == n
  {
    seq(n, i requires 0 <= i => if p + i < |s| then s[p + i] else 0)
  }

  function Stopped(s: seq<byte>, c: Cursor): Cursor
    requires c.pos <= |s|
  {
    c.(pos := if c.pos + c.left <= |s| then c.pos + c.left else |s|, left := 0)
  }

  /** The bytes that the reader gets up to the end of the packet, whether they are there or
      not, and whether it then stays at the end.  It does not when a page comes that does not
      continue the packet: the next call goes on with the segments of that page. */
  function Received(s: seq<byte>, c: Cursor): (r: (seq<byte>, bool))
    requires c.Ok() && c.pos <= |s|
    decreases |s| - c.pos, c.SegmentsLeft()
  {
    var chunk, e := Padded(s, c.pos, c.left), Stopped(s, c);
    if c.last then (chunk, true)
    else match NextTaken(s, e)
      case None => (chunk, !Opens(s, e.pos))
      case Some(d) => var (rest, stays) := Received(s, d); (chunk + rest, stays)
  }

  lemma PaddedThere(s: seq<byte>, p: nat, n: nat)
    requires p + n <= |s|
    ensures Padded(s, p, n) == s[p..p + n]
  {
  }

  /** A packet that is wholly there is received as it is. */
  lemma {:induction false} WholeReceived(s: seq<byte>, c: Cursor)
    requires c.Ok() && c.pos <= |s| && PacketAhead(s, c).Some?
    ensures Received(s, c) == (PacketAhead(s, c).value.0, true)
    decreases |s| - c.pos, c.SegmentsLeft()
  {
    PaddedThere(s, c.pos, c.left);
    assert Stopped(s, c) == Past(c);
    if !c.last { WholeReceived(s, Advance(s, Past(c)).value); }
  }

  lemma PaddedFirst(s: seq<byte>, p: nat, n: nat)
    requires n > 0
    ensures Padded(s, p, n)[0] == (if p < |s| then s[p] else 0)
    ensures Padded(s, p, n)[1..] == Padded(s, p + 1, n - 1)
    ensures (p >= |s| ==> Padded(s, p, n)[1..] == Padded(s, p, n - 1))
  {
  }

  /** Reading one byte, or a zero behind the end, takes the first byte off what is received. */
  lemma {:induction false} ReceivedByByte(s: seq<byte>, c: Cursor)
    requires c.Ok() && c.pos <= |s| && c.left > 0
    ensures var d := c.(pos := if c.pos < |s| then c.pos + 1 else c.pos, left := c.left - 1);
              var (bytes, stays) := Received(s, c);
      && bytes != [] && bytes[0] == (if c.pos < |s| then s[c.pos] else 0) && Received(s, d) == (bytes[1..], stays)
  {
    var d := c.(pos := if c.pos < |s| then c.pos + 1 else c.pos, left := c.left - 1);
    assert Stopped(s, d) == Stopped(s, c);
    PaddedFirst(s, c.pos, c.left);
    if !c.last && NextTaken(s, Stopped(s, c)).Some? {
      DropJoined(Padded(s, c.pos, c.left), Received(s, NextTaken(s, Stopped(s, c)).value).0);
    }
  }

  lemma NothingReceived(s: seq<byte>, c: Cursor)
    requires c.Ok() && c.pos <= |s| && c.left == 0 && c.last
    ensures Received(s, c) == ([], true)
  {
  }

  /** Going to the next segment changes nothing about what is received. */
  lemma ReceivedBySegment(s: seq<byte>, c: Cursor)
    requires c.Ok() && c.pos <= |s| && c.left == 0 && !c.last
    ensures match NextTaken(s, c)
            case None => Received(s, c) == ([], !Opens(s, c.pos))
            case Some(d) => Received(s, d) == Received(s, c)
  {
    assert Stopped(s, c) == c;
    match NextTaken(s, c)
    case None =>
    case Some(d) => assert [] + Received(s, d).0 == Received(s, d).0;
  }

  // Where nothing complete is ahead, it stays so from byte to byte and segment to segment.

  lemma NoneByByte(s: seq<byte>, c: Cursor)
    requires c.Ok() && c.left > 0 && c.pos < |s| && PacketAhead(s, c).None?
    ensures PacketAhead(s, c.(pos := c.pos + 1, left := c.left - 1)).None?
  {
    assert Past(c.(pos := c.pos + 1, left := c.left - 1)) == Past(c);
  }

  lemma NoneToSegment(s: seq<byte>, c: Cursor)
    requires c.Ok() && c.pos <= |s| && c.left == 0 && PacketAhead(s, c).None?
    ensures !c.last && (Advance(s, c).Some? ==> PacketAhead(s, Advance(s, c).value).None?)
  {
    assert Past(c) == c;
  }

  // ----- pages -----

  datatype Page = Page(flags: byte, granule: seq<byte>, serial: seq<byte>, number: seq<byte>, crc: seq<byte>,
                       lacing: seq<byte>, body: seq<byte>)
  {
    predicate Ok() {
      && |granule| == 8 && |serial| == 4 && |number| == 4 && |crc| == 4
      && 1 <= |lacing| <= 255 && |body| == Sum(lacing)
    }

    predicate Continued() { flags % 2 == 1 }

    function Encode(): (r: seq<byte>)
      requires Ok()
    {
      [0x4f, 0x67, 0x67, 0x53, 0, flags] + granule + serial + number + crc + [|lacing|] + lacing + body
    }
  }

  function Sum(l: seq<byte>): nat {
    if l == [] then 0 else l[0] + Sum(l[1..])
  }

  predicate PagesOk(pages: seq<Page>) {
    forall i :: 0 <= i < |pages| ==> pages[i].Ok()
  }

  function Encode(pages: seq<Page>): seq<byte>
    requires PagesOk(pages)
  {
    if pages == [] then [] else pages[0].Encode() + Encode(pages[1..])
  }

  function Lacings(pages: seq<Page>): seq<byte> {
    if pages == [] then [] else pages[0].lacing + Lacings(pages[1..])
  }

  function Bodies(pages: seq<Page>): seq<byte> {
    if pages == [] then [] else pages[0].body + Bodies(pages[1..])
  }

  /** Each page says whether it continues a packet, and it does exactly when the page before
      it ended in a full segment. */
  predicate FlagsOk(unfinished: bool, pages: seq<Page>)
    requires PagesOk(pages)
    decreases |pages|
  {
    pages == [] ||
    (pages[0].Continued() == unfinished && FlagsOk(pages[0].lacing[|pages[0].lacing| - 1] == 255, pages[1..]))
  }

  // ----- packets of a lacing list -----

  predicate HasShort(l: seq<byte>) {
    exists i :: 0 <= i < |l| && l[i] < 255
  }

  /** Length of the run of lacing values up to and including the first short one. */
  function Run(l: seq<byte>): (n: nat)
    ensures n <= |l|
    ensures HasShort(l) ==> n > 0 && l[n - 1] < 255
    ensures forall i :: 0 <= i < n - 1 ==> l[i] == 255
  {
    if l == [] then 0 else if l[0] < 255 then 1
    else
      assert HasShort(l) ==> HasShort(l[1..]) by {
        if HasShort(l) {
          var i :| 0 <= i < |l| && l[i] < 255;
          assert l[1..][i - 1] == l[i];
        }
      }
      1 + Run(l[1..])
  }

  /** The packets that lacing values cut out of the data; an unfinished one is not counted. */
  function Packets(l: seq<byte>, data: seq<byte>): seq<seq<byte>>
    requires |data| == Sum(l)
  {
    if !HasShort(l) then []
    else
      SumSplit(l, Run(l));
      var n := Sum(l[..Run(l)]);
      [data[..n]] + Packets(l[Run(l)..], data[n..])
  }

  lemma {:induction false} SumSplit(l: seq<byte>, n: nat)
    requires n <= |l|
    ensures Sum(l) == Sum(l[..n]) + Sum(l[n..])
  {
    if n == 0 {
      assert l[0..] == l && l[..0] == [];
    } else {
      assert l[..n][1..] == l[1..][..n - 1] && l[1..][n - 1..] == l[n..];
      SumSplit(l[1..], n - 1);
    }
  }

  lemma SumAppend(a: seq<byte>, b: seq<byte>)
    ensures Sum(a + b) == Sum(a) + Sum(b)
  {
    SumSplit(a + b, |a|);
    assert (a + b)[..|a|] == a && (a + b)[|a|..] == b;
  }

  lemma {:induction false} BodiesMatchLacings(pages: seq<Page>)
    requires PagesOk(pages)
    ensures |Bodies(pages)| == Sum(Lacings(pages))
  {
    if pages != [] {
      BodiesMatchLacings(pages[1..]);
      SumAppend(pages[0].lacing, Lacings(pages[1..]));
    }
  }

  // ----- a cursor in a stream of pages -----

  function LeftSegments(c: Cursor): seq<byte>
    requires c.Ok()
  {
    if 0 <= c.next < c.count then c.segments[c.next..c.count] else []
  }

  /** Between segments of a page, with `pages` still to come after that page. */
  ghost predicate At(s: seq<byte>, c: Cursor, pages: seq<Page>) {
    && c.Ok() && (c.next == -1 || c.next < c.count) && c.left == 0 && PagesOk(pages)
    && c.pos + Sum(LeftSegments(c)) <= |s|
    && s[c.pos + Sum(LeftSegments(c))..] == Encode(pages)
  }

  /** Lacing values and data from the cursor to the end of the stream. */
  ghost function LacingAhead(c: Cursor, pages: seq<Page>): seq<byte>
    requires c.Ok()
  {
    LeftSegments(c) + Lacings(pages)
  }

  ghost function DataAhead(s: seq<byte>, c: Cursor, pages: seq<Page>): seq<byte>
    requires At(s, c, pages)
  {
    s[c.pos..c.pos + Sum(LeftSegments(c))] + Bodies(pages)
  }

  lemma DataLength(s: seq<byte>, c: Cursor, pages: seq<Page>)
    requires At(s, c, pages)
    ensures |DataAhead(s, c, pages)| == Sum(LacingAhead(c, pages))
  {
    BodiesMatchLacings(pages);
    SumAppend(LeftSegments(c), Lacings(pages));
  }

  // ----- reading one packet from a stream of pages -----

  lemma Slice(s: seq<byte>, p: nat, e: seq<byte>, rest: seq<byte>, i: nat, j: nat)
    requires p <= |s| && s[p..] == e + rest && i <= j <= |e|
    ensures p + |e| <= |s| && s[p + i..p + j] == e[i..j] && s[p + |e|..] == rest
    ensures forall k :: 0 <= k < |e| ==> s[p + k] == e[k]
  {
    var t := s[p..];
    assert forall k :: 0 <= k < |e| ==> s[p + k] == t[k] == e[k];
    assert s[p + |e|..] == t[|e|..];
  }

  /** The bytes at a page boundary are those of the next page. */
  lemma OnePageBytes(s: seq<byte>, p: nat, g: Page, rest: seq<byte>)
    requires g.Ok() && p <= |s| && s[p..] == g.Encode() + rest
    ensures var n, b := |g.lacing|, |g.body|;
      && HeaderAt(s, p) && s[p + 26] == n && s[p + 5] == g.flags && p + HEADER + n + b <= |s|
      && s[p + 6..p + 14] == g.granule
      && s[p + HEADER..p + HEADER + n] == g.lacing
      && s[p + HEADER + n..p + HEADER + n + b] == g.body
      && s[p + HEADER + n + b..] == rest
  {
    PageLayout(g);
    EncodedBytes(s, p, g.Encode(), rest, |g.lacing|);
  }

  lemma EncodedBytes(s: seq<byte>, p: nat, e: seq<byte>, rest: seq<byte>, n: nat)
    requires p <= |s| && s[p..] == e + rest && HEADER + n <= |e|
    ensures p + |e| <= |s| && s[p + |e|..] == rest
    ensures forall k :: 0 <= k < HEADER ==> s[p + k] == e[k]
    ensures s[p + 6..p + 14] == e[6..14] && s[p + HEADER..p + HEADER + n] == e[HEADER..HEADER + n]
    ensures s[p + HEADER + n..p + |e|] == e[HEADER + n..]
  {
    Slice(s, p, e, rest, 6, 14);
    Slice(s, p, e, rest, HEADER, HEADER + n);
    Slice(s, p, e, rest, HEADER + n, |e|);
    assert e[HEADER + n..|e|] == e[HEADER + n..];
  }

  lemma PageLayout(g: Page)
    requires g.Ok()
    ensures var e := g.Encode(); var n := |g.lacing|;
      && |e| == HEADER + n + |g.body|
      && e[..6] == [0x4f, 0x67, 0x67, 0x53, 0, g.flags]
      && e[6..14] == g.granule && e[26] == n && e[HEADER..HEADER + n] == g.lacing && e[HEADER + n..] == g.body
      && e[0] == 0x4f && e[1] == 0x67 && e[2] == 0x67 && e[3] == 0x53 && e[4] == 0 && e[5] == g.flags
  {
    var a := [0x4f, 0x67, 0x67, 0x53, 0, g.flags];
    var h := a + g.granule + g.serial + g.number + g.crc;
    var e := g.Encode();
    var n := |g.lacing|;
    assert |h| == 26 && e == h + [n] + g.lacing + g.body;
    assert e[..6] == a && e[6..14] == g.granule;
    assert e[HEADER..HEADER + n] == g.lacing && e[HEADER + n..] == g.body;
  }

  lemma OnPageSegments(s: seq<byte>, c: Cursor, lacing: seq<byte>)
    requires c.Ok() && HeaderAt(s, c.pos) && s[c.pos + 26] == |lacing| && |lacing| > 0
    requires s[c.pos + HEADER..c.pos + HEADER + |lacing|] == lacing
    ensures var d := OnPage(s, c);
      LeftSegments(d) == lacing && d.pos == c.pos + HEADER + |lacing| && d.next == 0 < d.count
  {
    var d := OnPage(s, c);
    assert d.segments[..d.count] == lacing;
  }

  lemma {:induction false} NextPage(s: seq<byte>, c: Cursor, pages: seq<Page>)
    requires At(s, c, pages) && c.next == -1 && pages != []
    ensures HeaderAt(s, c.pos) && ContinuedAt(s, c.pos) == pages[0].Continued() && s[c.pos + 26] > 0
    ensures var d := OnPage(s, c);
      && At(s, d, pages[1..]) && LeftSegments(d) == pages[0].lacing
      && LacingAhead(d, pages[1..]) == LacingAhead(c, pages)
      && DataAhead(s, d, pages[1..]) == DataAhead(s, c, pages)
  {
    OnePageBytes(s, c.pos, pages[0], Encode(pages[1..]));
    OnPageSegments(s, c, pages[0].lacing);
    NextPageAhead(s, c, pages, OnPage(s, c));
  }

  lemma {:induction false} NextPageAhead(s: seq<byte>, c: Cursor, pages: seq<Page>, d: Cursor)
    requires At(s, c, pages) && c.next == -1 && pages != [] && d.Ok() && 0 == d.next < d.count && d.left == 0
    requires LeftSegments(d) == pages[0].lacing && d.pos + |pages[0].body| <= |s|
    requires s[d.pos..d.pos + |pages[0].body|] == pages[0].body && s[d.pos + |pages[0].body|..] == Encode(pages[1..])
    ensures At(s, d, pages[1..])
    ensures LacingAhead(d, pages[1..]) == LacingAhead(c, pages)
    ensures DataAhead(s, d, pages[1..]) == DataAhead(s, c, pages)
  {
    assert s[c.pos..c.pos] == [] && LeftSegments(c) == [];
    var l, b := Lacings(pages), Bodies(pages);
    assert [] + b == b && [] + l == l;
    assert LacingAhead(c, pages) == l && DataAhead(s, c, pages) == b;
  }

  lemma TakeFirst(c: Cursor)
    requires c.Ok() && 0 <= c.next < c.count
    ensures var l, d := LeftSegments(c), TakeSegment(c);
      && l != [] && d.left == l[0] && d.last == (d.left < 255)
      && Past(d).Ok() && LeftSegments(Past(d)) == l[1..] && Sum(l) == d.left + Sum(l[1..])
  {
  }

  lemma CutData(s: seq<byte>, p: nat, k: nat, n: nat, rest: seq<byte>)
    requires k <= n && p + n <= |s|
    ensures s[p..p + n] + rest == s[p..p + k] + (s[p + k..p + n] + rest)
  {
  }

  lemma CutLacing(l: seq<byte>, rest: seq<byte>)
    requires l != []
    ensures (l + rest)[0] == l[0] && (l + rest)[1..] == l[1..] + rest
  {
  }

  lemma {:induction false} NextLacing(s: seq<byte>, c: Cursor, pages: seq<Page>)
    requires At(s, c, pages) && c.next >= 0
    ensures var d := TakeSegment(c); var e := Past(d);
      && LacingAhead(c, pages) != [] && d.left == LacingAhead(c, pages)[0] && d.last == (d.left < 255)
         && d.pos + d.left <= |s|
      && At(s, e, pages) && LeftSegments(e) == LeftSegments(c)[1..]
      && LacingAhead(e, pages) == LacingAhead(c, pages)[1..]
      && DataAhead(s, c, pages) == s[c.pos..c.pos + d.left] + DataAhead(s, e, pages)
  {
    TakeFirst(c);
    CutLacing(LeftSegments(c), Lacings(pages));
    CutData(s, c.pos, TakeSegment(c).left, Sum(LeftSegments(c)), Bodies(pages));
  }

  lemma AheadOfPast(s: seq<byte>, d: Cursor)
    requires d.Ok() && !d.last && d.pos + d.left <= |s|
    ensures match PacketAhead(s, Past(d))
            case None => PacketAhead(s, d) == None
            case Some((rest, e)) => PacketAhead(s, d) == Some((s[d.pos..d.pos + d.left] + rest, e))
  {
    assert Past(Past(d)) == Past(d);
    var chunk := s[d.pos..d.pos + d.left];
    assert s[Past(d).pos..Past(d).pos] == [];
    match Advance(s, Past(d))
    case None =>
    case Some(x) =>
      match PacketAhead(s, x)
      case None =>
      case Some((rest, e)) => assert [] + rest == rest;
  }

  ghost predicate FlagsAhead(c: Cursor, pages: seq<Page>, inPacket: bool)
    requires c.Ok() && PagesOk(pages)
  {
    var l := LeftSegments(c);
    FlagsOk(if l == [] then inPacket else l[|l| - 1] == 255, pages)
  }

  /** Ahead of `c` is the data of the first run of `l`, and `l'` and `data'` are left after it. */
  ghost predicate CutsRun(s: seq<byte>, c: Cursor, l: seq<byte>, data: seq<byte>, e: Cursor, l': seq<byte>,
                          data': seq<byte>)
    requires c.Ok()
  {
    var n := Sum(l[..Run(l)]);
    n <= |data| && PacketAhead(s, c) == Some((data[..n], e)) && l' == l[Run(l)..] && data' == data[n..]
  }

  /** Ahead of `c` is the data of one lacing run; behind it, at `e`, the rest of the stream. */
  ghost predicate ReadsRun(s: seq<byte>, c: Cursor, pages: seq<Page>, e: Cursor, pages': seq<Page>)
    requires At(s, c, pages)
  {
    && At(s, e, pages') && FlagsAhead(e, pages', false)
    && CutsRun(s, c, LacingAhead(c, pages), DataAhead(s, c, pages), e, LacingAhead(e, pages'), DataAhead(s, e, pages'))
  }

  /** What is ahead of a cursor inside a packet is the data of one lacing run, however many
      pages it spans, and behind it the rest of the stream is as it was. */
  lemma {:induction false} PacketOnPages(s: seq<byte>, c: Cursor, pages: seq<Page>)
    returns (e: Cursor, pages': seq<Page>)
    requires InPacket(s, c, pages)
    ensures ReadsRun(s, c, pages, e, pages')
    decreases |LacingAhead(c, pages)|, |pages|
  {
    if c.next >= 0 {
      var d := TakeSegment(c);
      if d.last {
        LastSegment(s, c, pages);
        e, pages' := Past(d), pages;
      } else {
        GoOnSegment(s, c, pages);
        e, pages' := PacketOnPages(s, Past(d), pages);
        MoreSegments(s, c, pages, e, pages');
      }
    } else {
      GoOnPage(s, c, pages);
      e, pages' := PacketOnPages(s, OnPage(s, c), pages[1..]);
      CrossPage(s, c, pages, e, pages');
    }
  }

  ghost predicate InPacket(s: seq<byte>, c: Cursor, pages: seq<Page>) {
    At(s, c, pages) && !c.last && FlagsAhead(c, pages, true) && HasShort(LacingAhead(c, pages))
  }

  lemma GoOnSegment(s: seq<byte>, c: Cursor, pages: seq<Page>)
    requires InPacket(s, c, pages) && c.next >= 0 && !TakeSegment(c).last
    ensures InPacket(s, Past(TakeSegment(c)), pages)
    ensures |LacingAhead(Past(TakeSegment(c)), pages)| < |LacingAhead(c, pages)|
  {
    NextLacing(s, c, pages);
    KeepFlags(c, pages);
    RunTail(LacingAhead(c, pages));
  }

  lemma GoOnPage(s: seq<byte>, c: Cursor, pages: seq<Page>)
    requires InPacket(s, c, pages) && c.next == -1
    ensures pages != [] && pages[0].Continued() && HeaderAt(s, c.pos) && InPacket(s, OnPage(s, c), pages[1..])
    ensures LacingAhead(OnPage(s, c), pages[1..]) == LacingAhead(c, pages)
  {
    assert LacingAhead(c, pages) == [] + Lacings(pages) == Lacings(pages);
    NextPage(s, c, pages);
  }

  lemma MoreSegments(s: seq<byte>, c: Cursor, pages: seq<Page>, e: Cursor, pages': seq<Page>)
    requires At(s, c, pages) && !c.last && c.next >= 0 && !TakeSegment(c).last && HasShort(LacingAhead(c, pages))
    requires At(s, Past(TakeSegment(c)), pages) && ReadsRun(s, Past(TakeSegment(c)), pages, e, pages')
    ensures ReadsRun(s, c, pages, e, pages')
  {
    NextLacing(s, c, pages);
    var p := Past(TakeSegment(c));
    DataLength(s, p, pages);
    LongerRun(s, c, LacingAhead(c, pages), DataAhead(s, c, pages), LacingAhead(p, pages), DataAhead(s, p, pages),
              e, LacingAhead(e, pages'), DataAhead(s, e, pages'));
  }

  lemma LongerRun(s: seq<byte>, c: Cursor, l: seq<byte>, data: seq<byte>, lp: seq<byte>, datap: seq<byte>,
                  e: Cursor, l': seq<byte>, data': seq<byte>)
    requires c.Ok() && !c.last && c.left == 0 && c.next >= 0 && c.pos <= |s|
    requires HasShort(l) && TakeSegment(c).left == l[0] == 255 && !TakeSegment(c).last && c.pos + 255 <= |s|
    requires lp == l[1..] && data == s[c.pos..c.pos + TakeSegment(c).left] + datap && |datap| == Sum(lp)
    requires CutsRun(s, Past(TakeSegment(c)), lp, datap, e, l', data')
    ensures CutsRun(s, c, l, data, e, l', data')
  {
    RunData(l, s[c.pos..c.pos + 255], datap);
    OneMoreSegment(s, c, datap[..Sum(lp[..Run(lp)])], e);
  }

  lemma CrossPage(s: seq<byte>, c: Cursor, pages: seq<Page>, e: Cursor, pages': seq<Page>)
    requires At(s, c, pages) && c.next == -1 && pages != [] && pages[0].Continued() && !c.last
    requires HeaderAt(s, c.pos) && At(s, OnPage(s, c), pages[1..]) && ReadsRun(s, OnPage(s, c), pages[1..], e, pages')
    ensures ReadsRun(s, c, pages, e, pages')
  {
    NextPage(s, c, pages);
    SamePacket(s, c);
  }

  lemma KeepFlags(c: Cursor, pages: seq<Page>)
    requires c.Ok() && 0 <= c.next < c.count && PagesOk(pages) && FlagsAhead(c, pages, true)
    requires LeftSegments(Past(TakeSegment(c))) == LeftSegments(c)[1..]
    ensures c.segments[c.next] == 255 ==> FlagsAhead(Past(TakeSegment(c)), pages, true)
    ensures c.segments[c.next] < 255 ==> FlagsAhead(Past(TakeSegment(c)), pages, false)
  {
    var l := LeftSegments(c);
    assert l[0] == c.segments[c.next];
    if |l| > 1 { assert l[1..][|l| - 2] == l[|l| - 1]; }
  }

  /** The segment that ends a packet. */
  lemma {:induction false} LastSegment(s: seq<byte>, c: Cursor, pages: seq<Page>)
    requires InPacket(s, c, pages) && c.next >= 0 && TakeSegment(c).last
    ensures ReadsRun(s, c, pages, Past(TakeSegment(c)), pages)
  {
    NextLacing(s, c, pages);
    KeepFlags(c, pages);
    OneLacing(LacingAhead(c, pages));
    var d := TakeSegment(c);
    var chunk := s[d.pos..d.pos + d.left];
    AheadThrough(s, c, chunk, Past(d));
    CutJoined(chunk, DataAhead(s, Past(d), pages));
  }

  lemma AheadThrough(s: seq<byte>, c: Cursor, bytes: seq<byte>, e: Cursor)
    requires c.Ok() && !c.last && c.left == 0 && c.pos <= |s| && c.next >= 0
    requires PacketAhead(s, TakeSegment(c)) == Some((bytes, e))
    ensures PacketAhead(s, c) == Some((bytes, e))
  {
    assert Past(c) == c && s[c.pos..c.pos] == [] && [] + bytes == bytes;
  }

  lemma {:induction false} OneMoreSegment(s: seq<byte>, c: Cursor, bytes: seq<byte>, e: Cursor)
    requires c.Ok() && !c.last && c.left == 0 && c.pos <= |s| && c.next >= 0
    requires var d := TakeSegment(c); !d.last && d.pos + d.left <= |s| && PacketAhead(s, Past(d)) == Some((bytes, e))
    ensures PacketAhead(s, c) == Some((s[c.pos..c.pos + TakeSegment(c).left] + bytes, e))
  {
    var d := TakeSegment(c);
    AheadOfPast(s, d);
    assert d.pos == c.pos;
    AheadThrough(s, c, s[d.pos..d.pos + d.left] + bytes, e);
  }

  lemma RunData(l: seq<byte>, chunk: seq<byte>, data: seq<byte>)
    requires HasShort(l) && l[0] == 255 == |chunk| && |data| == Sum(l[1..])
    ensures var n, m := Sum(l[..Run(l)]), Sum(l[1..][..Run(l[1..])]);
      && m <= |data| && n == 255 + m && (chunk + data)[..n] == chunk + data[..m] && (chunk + data)[n..] == data[m..]
      && l[Run(l)..] == l[1..][Run(l[1..])..]
  {
    RunTail(l);
    SumSplit(l[1..], Run(l[1..]));
    CutAppended(chunk, data, Sum(l[1..][..Run(l[1..])]));
  }

  lemma CutJoined(a: seq<byte>, b: seq<byte>)
    ensures (a + b)[..|a|] == a && (a + b)[|a|..] == b
  {
  }

  lemma CutAppended(a: seq<byte>, b: seq<byte>, m: nat)
    requires m <= |b|
    ensures (a + b)[..|a| + m] == a + b[..m] && (a + b)[|a| + m..] == b[m..]
  {
  }

  lemma {:induction false} SamePacket(s: seq<byte>, c: Cursor)
    requires c.Ok() && !c.last && c.left == 0 && c.next == -1
    requires HeaderAt(s, c.pos) && ContinuedAt(s, c.pos)
    ensures PacketAhead(s, OnPage(s, c)) == PacketAhead(s, c)
  {
    var d := OnPage(s, c);
    assert Past(c) == c && Past(d) == d;
    assert Advance(s, c) == Advance(s, d);
    assert s[c.pos..c.pos] == [] == s[d.pos..d.pos];
  }

  lemma OneLacing(l: seq<byte>)
    requires l != [] && l[0] < 255
    ensures Run(l) == 1 && Sum(l[..1]) == l[0]
  {
    assert l[..1] == [l[0]] && [l[0]][1..] == [];
  }

  lemma RunTail(l: seq<byte>)
    requires HasShort(l) && l[0] == 255
    ensures HasShort(l[1..]) && Run(l) == 1 + Run(l[1..])
    ensures Sum(l[..Run(l)]) == 255 + Sum(l[1..][..Run(l[1..])])
    ensures l[Run(l)..] == l[1..][Run(l[1..])..]
  {
    var i :| 0 <= i < |l| && l[i] < 255;
    assert l[1..][i - 1] == l[i];
    var n := Run(l);
    assert l[..n][1..] == l[1..][..n - 1];
  }

  // ----- reading a whole stream -----

  function Fresh(c: Cursor): Cursor { c.(last := false, left := 0) }

  /** Starting a packet: it may open a page, which must not continue an older packet. */
  function BeginPacket(s: seq<byte>, c: Cursor): (r: Option<Cursor>)
    requires c.Ok()
    ensures r.Some? ==> r.value.Ok() && !r.value.last && r.value.left == 0 && r.value.pos >= c.pos
    ensures r.Some? && r.value.pos == c.pos ==> r.value.SegmentsLeft() == c.SegmentsLeft()
    ensures r.Some? && c.pos <= |s| ==> r.value.pos <= |s|
  {
    if c.next >= 0 then Some(Fresh(c))
    else if HeaderAt(s, c.pos) && !ContinuedAt(s, c.pos) then Some(Fresh(OnPage(s, c)))
    else None
  }

  /** The packets read one after the other, as long as each is wholly there. */
  function ReadPackets(s: seq<byte>, c: Cursor): seq<seq<byte>>
    requires c.Ok() && c.pos <= |s|
    decreases |s| - c.pos, c.SegmentsLeft()
  {
    match BeginPacket(s, c)
    case None => []
    case Some(d) =>
      match PacketAhead(s, d)
      case None => []
      case Some((bytes, e)) => [bytes] + ReadPackets(s, e)
  }

  lemma {:induction false} NoPacketOnPages(s: seq<byte>, c: Cursor, pages: seq<Page>)
    requires At(s, c, pages) && !c.last && FlagsAhead(c, pages, true) && !HasShort(LacingAhead(c, pages))
    ensures PacketAhead(s, c) == None
    decreases |LacingAhead(c, pages)|, |pages|
  {
    if c.next >= 0 {
      var d := FullSegment(s, c, pages);
      NoPacketOnPages(s, Past(d), pages);
      NoneBySegment(s, c, d);
    } else if pages == [] {
      NoneAtEnd(s, c);
    } else {
      NextPage(s, c, pages);
      NoPacketOnPages(s, OnPage(s, c), pages[1..]);
      SamePacket(s, c);
    }
  }

  lemma NoShortTail(l: seq<byte>)
    requires l != [] && !HasShort(l)
    ensures l[0] == 255 && !HasShort(l[1..])
  {
    assert forall i :: 0 <= i < |l[1..]| ==> l[1..][i] == l[i + 1];
  }

  lemma FullSegment(s: seq<byte>, c: Cursor, pages: seq<Page>) returns (d: Cursor)
    requires At(s, c, pages) && !c.last && c.next >= 0 && FlagsAhead(c, pages, true) && !HasShort(LacingAhead(c, pages))
    ensures d == TakeSegment(c) && !d.last && d.pos + d.left <= |s|
    ensures |LacingAhead(Past(d), pages)| < |LacingAhead(c, pages)|
    ensures At(s, Past(d), pages) && !Past(d).last && FlagsAhead(Past(d), pages, true)
    ensures !HasShort(LacingAhead(Past(d), pages))
  {
    d := TakeSegment(c);
    NextLacing(s, c, pages);
    NoShortTail(LacingAhead(c, pages));
    KeepFlags(c, pages);
  }

  lemma NoneBySegment(s: seq<byte>, c: Cursor, d: Cursor)
    requires c.Ok() && !c.last && c.left == 0 && c.next >= 0 && d == TakeSegment(c) && !d.last && d.pos + d.left <= |s|
    requires PacketAhead(s, Past(d)) == None
    ensures PacketAhead(s, c) == None
  {
    AheadOfPast(s, d);
    assert Past(c) == c;
  }

  lemma NoneAtEnd(s: seq<byte>, c: Cursor)
    requires c.Ok() && !c.last && c.left == 0 && c.next == -1 && c.pos <= |s| && s[c.pos..] == []
    ensures PacketAhead(s, c) == None
  {
    assert |s[c.pos..]| == 0;
    assert Past(c) == c;
  }

  lemma {:induction false} BeginOnPages(s: seq<byte>, c: Cursor, pages: seq<Page>)
    returns (d: Cursor, pages': seq<Page>)
    requires At(s, c, pages) && FlagsAhead(c, pages, false) && LacingAhead(c, pages) != []
    ensures BeginPacket(s, c) == Some(d) && At(s, d, pages') && !d.last && LeftSegments(d) != []
    ensures FlagsAhead(d, pages', true)
    ensures LacingAhead(d, pages') == LacingAhead(c, pages) && DataAhead(s, d, pages') == DataAhead(s, c, pages)
  {
    if c.next >= 0 {
      d, pages' := Fresh(c), pages;
      FreshOnPage(s, c, pages);
    } else {
      OpensPage(s, c, pages);
      d, pages' := Fresh(OnPage(s, c)), pages[1..];
      FreshOnPage(s, OnPage(s, c), pages[1..]);
    }
  }

  lemma {:induction false} FreshOnPage(s: seq<byte>, c: Cursor, pages: seq<Page>)
    requires At(s, c, pages) && c.next >= 0 && (FlagsAhead(c, pages, false) || FlagsAhead(c, pages, true))
    ensures var d := Fresh(c);
      && At(s, d, pages) && !d.last && LeftSegments(d) != [] && FlagsAhead(d, pages, true)
      && LacingAhead(d, pages) == LacingAhead(c, pages) && DataAhead(s, d, pages) == DataAhead(s, c, pages)
  {
    FreshCursor(s, c, pages);
  }

  lemma {:induction false} OpensPage(s: seq<byte>, c: Cursor, pages: seq<Page>)
    requires At(s, c, pages) && c.next == -1 && FlagsAhead(c, pages, false) && LacingAhead(c, pages) != []
    ensures pages != [] && HeaderAt(s, c.pos) && !ContinuedAt(s, c.pos) && s[c.pos + 26] > 0
    ensures var d := OnPage(s, c);
      && At(s, d, pages[1..]) && d.next >= 0 && FlagsAhead(d, pages[1..], true)
      && LacingAhead(d, pages[1..]) == LacingAhead(c, pages) && DataAhead(s, d, pages[1..]) == DataAhead(s, c, pages)
  {
    assert LacingAhead(c, pages) == Lacings(pages);
    NextPage(s, c, pages);
  }

  lemma FreshCursor(s: seq<byte>, c: Cursor, pages: seq<Page>)
    requires At(s, c, pages) && c.next >= 0
    ensures var d := Fresh(c);
      && At(s, d, pages) && LeftSegments(d) == LeftSegments(c) != []
      && LacingAhead(d, pages) == LacingAhead(c, pages) && DataAhead(s, d, pages) == DataAhead(s, c, pages)
  {
    assert LeftSegments(c) == c.segments[c.next..c.count];
  }

  /** Reading packet by packet yields exactly the packets that the lacing values of all the
      pages describe, and their data. */
  lemma {:induction false} ReadsAllPackets(s: seq<byte>, c: Cursor, pages: seq<Page>)
    requires At(s, c, pages) && FlagsAhead(c, pages, false)
    ensures |DataAhead(s, c, pages)| == Sum(LacingAhead(c, pages))
    ensures ReadPackets(s, c) == Packets(LacingAhead(c, pages), DataAhead(s, c, pages))
    decreases |LacingAhead(c, pages)|
  {
    DataLength(s, c, pages);
    var l, data := LacingAhead(c, pages), DataAhead(s, c, pages);
    if l == [] {
      NothingLeft(s, c, pages);
    } else {
      var d, pages1 := BeginOnPages(s, c, pages);
      if HasShort(l) {
        var e, pages2 := PacketOnPages(s, d, pages1);
        ReadsAllPackets(s, e, pages2);
        ReadStep(s, c, d, e, l, data, LacingAhead(e, pages2), DataAhead(s, e, pages2));
      } else {
        NoPacketOnPages(s, d, pages1);
      }
    }
  }

  lemma ReadStep(s: seq<byte>, c: Cursor, d: Cursor, e: Cursor, l: seq<byte>, data: seq<byte>, l': seq<byte>,
                 data': seq<byte>)
    requires c.Ok() && c.pos <= |s| && BeginPacket(s, c) == Some(d) && HasShort(l) && |data| == Sum(l)
    requires CutsRun(s, d, l, data, e, l', data') && |data'| == Sum(l')
    requires e.Ok() && e.pos <= |s| && ReadPackets(s, e) == Packets(l', data')
    ensures ReadPackets(s, c) == Packets(l, data)
  {
    assert ReadPackets(s, c) == [data[..Sum(l[..Run(l)])]] + ReadPackets(s, e);
  }

  lemma NothingLeft(s: seq<byte>, c: Cursor, pages: seq<Page>)
    requires At(s, c, pages) && LacingAhead(c, pages) == []
    ensures BeginPacket(s, c) == None
  {
    assert LeftSegments(c) == [] && Lacings(pages) == [];
    assert c.next == -1;
    LacingsOfPages(pages);
    assert s[c.pos..] == [];
  }

  lemma LacingsOfPages(pages: seq<Page>)
    requires PagesOk(pages)
    ensures pages == [] <==> Lacings(pages) == []
  {
    assert pages != [] ==> pages[0].Ok();
  }

  function StartOfStream(table: seq<byte>): Cursor { Cursor(0, table, 0, -1, false, 0) }

  lemma StartsAt(pages: seq<Page>, table: seq<byte>)
    requires PagesOk(pages) && FlagsOk(false, pages) && |table| == 255
    ensures var s, c := Encode(pages), StartOfStream(table);
      && At(s, c, pages) && FlagsAhead(c, pages, false)
      && LacingAhead(c, pages) == Lacings(pages) && DataAhead(s, c, pages) == Bodies(pages)
  {
    var s, c := Encode(pages), StartOfStream(table);
    assert LeftSegments(c) == [] && s[0..] == s && s[0..0] == [];
    assert At(s, c, pages);
    var l, b := Lacings(pages), Bodies(pages);
    assert [] + l == l && [] + b == b;
  }

  /** The same for a whole stream that starts with a fresh packet. */
  lemma StreamRoundTrip(pages: seq<Page>, table: seq<byte>)
    requires PagesOk(pages) && FlagsOk(false, pages) && |table| == 255
    ensures |Bodies(pages)| == Sum(Lacings(pages))
    ensures ReadPackets(Encode(pages), StartOfStream(table)) == Packets(Lacings(pages), Bodies(pages))
  {
    StartsAt(pages, table);
    ReadsAllPackets(Encode(pages), StartOfStream(table), pages);
  }
}
