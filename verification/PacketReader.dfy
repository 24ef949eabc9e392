/** The page, segment and packet state machine over a byte stream in memory. */
module PacketReader {
  import opened Options
  import opened OggPackets

  datatype ReadError =
    | NoError | InvalidVersion | UnexpectedEof | MissingCapturePattern | ContinuedFlagInvalid
    | NeedMoreData | InvalidStream

  const EOP: int := -1

  /** A page that seeking starts from: where it lies, and its granule position. */
  datatype ProbedPage = ProbedPage(start: int, end: int, lastSample: int)

  /** The last segment of a page that ends a packet, or -1. */
  function LastShort(segments: seq<byte>, count: nat): (i: int)
    requires count <= |segments|
    ensures -1 <= i < count && (i >= 0 ==> segments[i] < 255)
    ensures forall j :: i < j < count ==> segments[j] == 255
  {
    if count == 0 then -1 else if segments[count - 1] < 255 then count - 1 else LastShort(segments, count - 1)
  }

  /** The segment whose packet carries the page's granule position; -2 if there is none. */
  function KnownEnd(known: bool, segments: seq<byte>, count: nat): int
    requires count <= |segments|
  {
    if known && LastShort(segments, count) >= 0 then LastShort(segments, count) else -2
  }

  /** No segment from `next` on ends a packet on this page. */
  predicate LastToEnd(segments: seq<byte>, count: nat, next: int)
    requires count <= |segments|
  {
    next == -1 || forall j :: 0 <= next <= j < count ==> segments[j] == 255
  }

  lemma NotesAgree(segments: seq<byte>, count: nat, next: int, which: int, known: bool)
    requires 0 <= which < count <= |segments| && segments[which] < 255
    requires which + 1 == if next == -1 then count else next
    ensures which == KnownEnd(known, segments, count) <==> known && LastToEnd(segments, count, next)
  {
  }

  predicate GranuleKnown(s: seq<byte>, p: nat)
    requires p + HEADER <= |s|
  {
    exists i :: p + 6 <= i < p + 14 && s[i] != 255
  }

  /** Four bytes are all ones exactly when the number they spell is. */
  lemma AllOnes(a: byte, b: byte, c: byte, d: byte)
    ensures Number(a, b, c, d) == 0xFFFF_FFFF <==> a == 255 && b == 255 && c == 255 && d == 255
  {
  }

  function Word(s: seq<byte>, p: nat): int
    requires p + 4 <= |s|
  {
    Number(s[p], s[p + 1], s[p + 2], s[p + 3])
  }

  lemma GranuleWords(s: seq<byte>, p: nat)
    requires p + HEADER <= |s|
    ensures GranuleKnown(s, p) <==> Word(s, p + 6) != 0xFFFF_FFFF || Word(s, p + 10) != 0xFFFF_FFFF
  {
    AllOnes(s[p + 6], s[p + 7], s[p + 8], s[p + 9]);
    AllOnes(s[p + 10], s[p + 11], s[p + 12], s[p + 13]);
  }

  class Reader {
    const stream: seq<byte>
    const pushMode: bool
    var firstDecode: bool
    var firstPage: ProbedPage
    var pos: nat
    var eof: bool
    var error: ReadError
    var pageFlag: byte
    var segments: seq<byte>
    var segmentCount: nat
    var nextSeg: int
    var lastSeg: bool
    var lastSegWhich: int
    var bytesInSeg: nat
    var packetBytes: nat
    var endSegWithKnownLoc: int
    var knownLocForPacket: int
    ghost var granuleKnown: bool  // whether the current page carries a granule position

    ghost predicate Valid()
      reads this
    {
      C().Ok() && pos <= |stream|
    }

    /** The state as a position in the stream. */
    ghost function C(): Cursor
      reads this
    {
      Cursor(pos, segments, segmentCount, nextSeg, lastSeg, bytesInSeg)
    }

    /** The current page's note of which packet its granule position belongs to. */
    ghost predicate Noted()
      reads this
    {
      C().Ok() && endSegWithKnownLoc == KnownEnd(granuleKnown, segments, segmentCount)
    }

    /** The segment noted as the packet's last one is the one just taken. */
    ghost predicate MarksLast()
      reads this
    {
      && 0 <= lastSegWhich < segmentCount <= |segments| && segments[lastSegWhich] < 255
      && lastSegWhich + 1 == if nextSeg == -1 then segmentCount else nextSeg
    }

    ghost predicate Marked()
      reads this
    {
      Noted() && (lastSeg && segmentCount > 0 ==> MarksLast())
    }

    /** Something went wrong: the end of the data was met, or an error noted. */
    ghost predicate Trouble()
      reads this
    {
      eof || error != NoError
    }

    constructor (bytes: seq<byte>, push: bool)
      ensures Valid() && stream == bytes && pushMode == push && firstDecode && C() == StartOfStream(seq(255, _ => 0))
      ensures !eof && error == NoError && Noted()
    {
      stream, pushMode := bytes, push;
      firstDecode, firstPage := true, ProbedPage(0, 0, 0);
      pos, eof, error, pageFlag := 0, false, NoError, 0;
      segments, segmentCount, nextSeg := seq(255, _ => 0), 0, -1;
      lastSeg, lastSegWhich, bytesInSeg, packetBytes := false, 0, 0, 0;
      endSegWithKnownLoc, knownLocForPacket, granuleKnown := -2, 0, false;
    }

    method Get8() returns (b: byte)
      requires Valid()
      modifies this`pos, this`eof
      ensures Valid()
      ensures old(pos) < |stream| ==> b == stream[old(pos)] && pos == old(pos) + 1 && eof == old(eof)
      ensures old(pos) == |stream| ==> b == 0 && pos == old(pos) && eof
    {
      if pos >= |stream| {
        eof := true;
        return 0;
      }
      b := stream[pos];
      pos := pos + 1;
    }

    method Get32() returns (x: int)
      requires Valid()
      modifies this`pos, this`eof
      ensures Valid() && old(pos) <= pos && (old(eof) ==> eof)
      ensures if old(pos) + 4 <= |stream| then pos == old(pos) + 4 && eof == old(eof) else eof && pos == |stream|
      ensures old(pos) + 4 <= |stream| ==> x == Word(stream, old(pos))
    {
      var a := Get8();
      var b := Get8();
      var c := Get8();
      var d := Get8();
      x := Number(a, b, c, d);
    }

    method CapturePattern() returns (ok: bool)
      requires Valid()
      modifies this`pos, this`eof
      ensures Valid() && old(pos) <= pos && (old(eof) ==> eof)
      ensures ok <==> Captured(stream, old(pos))
      ensures ok ==> pos == old(pos) + 4 && eof == old(eof)
    {
      var b := Get8();
      if b != 0x4f { return false; }
      b := Get8();
      if b != 0x67 { return false; }
      b := Get8();
      if b != 0x67 { return false; }
      b := Get8();
      return b == 0x53;
    }

    // Reads the segment table over the front of the old one.
    method GetSegmentTable(n: nat) returns (ok: bool)
      requires Valid() && n <= 255
      modifies this`pos, this`eof, this`segments
      ensures Valid() && old(pos) <= pos && (old(eof) ==> eof)
      ensures ok <==> old(pos) + n <= |stream|
      ensures ok ==> pos == old(pos) + n && eof == old(eof) && segments == stream[old(pos)..pos] + old(segments)[n..]
      ensures !ok ==> segments == old(segments)
    {
      if pos + n > |stream| {
        eof := true;
        return false;
      }
      segments := stream[pos..pos + n] + segments[n..];
      pos := pos + n;
      ok := true;
    }

    // The scan for the last packet that ends on the page.
    method FindLastShort() returns (i: int)
      requires Valid()
      ensures i == LastShort(segments, segmentCount)
    {
      i := segmentCount - 1;
      while i >= 0
        invariant -1 <= i < segmentCount && LastShort(segments, segmentCount) == LastShort(segments, i + 1)
      {
        if segments[i] < 255 { break; }
        i := i - 1;
      }
    }

    // The fixed part of the header after the version.
    method ReadHeaderFields() returns (loc0: int, loc1: int, n: byte)
      requires Valid()
      modifies this`pos, this`eof, this`pageFlag
      ensures Valid() && old(pos) <= pos && (old(eof) ==> eof)
      ensures var q := old(pos);
        if q + 22 <= |stream| then
          && pos == q + 22 && eof == old(eof) && pageFlag == stream[q] && n == stream[q + 21]
          && loc0 == Word(stream, q + 1) && loc1 == Word(stream, q + 5)
        else eof && n == 0 && pos == |stream| && pageFlag == if q < |stream| then stream[q] else 0
    {
      pageFlag := Get8();
      loc0 := Get32();
      loc1 := Get32();
      var _ := Get32();
      var _ := Get32();
      var _ := Get32();
      n := Get8();
    }

    // Notes which packet the granule position belongs to.
    method MarkKnownLoc(loc0: int, loc1: int)
      requires Valid()
      modifies this`endSegWithKnownLoc, this`knownLocForPacket
      ensures endSegWithKnownLoc == KnownEnd(loc0 != 0xFFFF_FFFF || loc1 != 0xFFFF_FFFF, segments, segmentCount)
      ensures knownLocForPacket == if endSegWithKnownLoc == -2 then old(knownLocForPacket) else loc0
    {
      endSegWithKnownLoc := -2;
      if loc0 != 0xFFFF_FFFF || loc1 != 0xFFFF_FFFF {
        var i := FindLastShort();
        if i >= 0 {
          endSegWithKnownLoc := i;
          knownLocForPacket := loc0;
        }
      }
    }

    method StartPageNoCapturePattern() returns (ok: bool)
      requires Valid() && nextSeg == -1 && pos >= 4 && Captured(stream, pos - 4)
      modifies this`pos, this`eof, this`error, this`pageFlag, this`segments, this`segmentCount, this`nextSeg,
               this`endSegWithKnownLoc, this`knownLocForPacket, this`granuleKnown, this`firstPage
      ensures Valid() && (ok || nextSeg == -1) && (old(Trouble()) ==> Trouble())
      ensures Started(stream, old(pos) - 4, old(C()), ok, C(), pageFlag)
      ensures if HeaderAt(stream, old(pos) - 4) then eof == old(eof) && error == old(error)
              else if ok then eof else error != NoError
      ensures HeaderAt(stream, old(pos) - 4) ==> Noted() && granuleKnown == GranuleKnown(stream, old(pos) - 4)
      ensures old(pos) < |stream| && stream[old(pos)] != 0 ==>
                !ok && error == InvalidVersion && pos == old(pos) + 1 && eof == old(eof)
      ensures !firstDecode ==> firstPage == old(firstPage)
      ensures firstDecode && !pushMode ==> firstPage.start == old(pos) - 4
      ensures firstDecode && !pushMode && HeaderAt(stream, old(pos) - 4) ==>
                firstPage == PageNoted(stream, old(pos) - 4)
    {
      ghost var p, c := pos - 4, C();
      if firstDecode && !pushMode { firstPage := firstPage.(start := pos - 4); }
      var loc0;
      ok, loc0 := ReadHeader();
      if ok { NoteFirstPage(loc0); }
      if HeaderAt(stream, p) { PageIsNoted(stream, p, c, ok, C(), pageFlag, loc0); }
    }

    // The header after the capture pattern.
    method ReadHeader() returns (ok: bool, loc0: int)
      requires Valid() && nextSeg == -1 && pos >= 4 && Captured(stream, pos - 4)
      modifies this`pos, this`eof, this`error, this`pageFlag, this`segments, this`segmentCount, this`nextSeg,
               this`endSegWithKnownLoc, this`knownLocForPacket, this`granuleKnown
      ensures Valid() && (ok || nextSeg == -1) && (old(Trouble()) ==> Trouble())
      ensures Started(stream, old(pos) - 4, old(C()), ok, C(), pageFlag)
      ensures if HeaderAt(stream, old(pos) - 4) then eof == old(eof) && error == old(error)
              else if ok then eof else error != NoError
      ensures HeaderAt(stream, old(pos) - 4) ==> Noted() && granuleKnown == GranuleKnown(stream, old(pos) - 4)
      ensures old(pos) < |stream| && stream[old(pos)] != 0 ==>
                !ok && error == InvalidVersion && pos == old(pos) + 1 && eof == old(eof)
      ensures HeaderAt(stream, old(pos) - 4) ==> loc0 == Word(stream, old(pos) + 2)
    {
      ghost var p := pos - 4;
      loc0 := 0;
      var version := Get8();
      if version != 0 {
        error := InvalidVersion;
        ok := false;
        return;
      }
      ok, loc0 := ReadAfterVersion(p);
    }

    // The header of the page at `p` after its version.
    method ReadAfterVersion(ghost p: nat) returns (ok: bool, loc0: int)
      requires Valid() && nextSeg == -1 && VersionRead(stream, p, pos)
      modifies this`pos, this`eof, this`error, this`pageFlag, this`segments, this`segmentCount, this`nextSeg,
               this`endSegWithKnownLoc, this`knownLocForPacket, this`granuleKnown
      ensures Valid() && (ok || nextSeg == -1) && (old(eof) ==> eof) && (ok ==> error == old(error))
      ensures Started(stream, p, old(C()), ok, C(), pageFlag)
      ensures HeaderAt(stream, p) ==> eof == old(eof) && loc0 == Word(stream, p + 6)
      ensures !HeaderAt(stream, p) ==> if ok then eof else error != NoError
      ensures HeaderAt(stream, p) ==> Noted() && granuleKnown == GranuleKnown(stream, p)
    {
      ghost var c := C();
      var loc1, n;
      loc0, loc1, n := ReadHeaderFields();
      ok := LoadTable(n, loc0, loc1);
      PageStarts(stream, p, c, n, pageFlag, ok, C());
      if p + HEADER <= |stream| { GranuleWords(stream, p); }
    }

    // Notes where the first page ends.
    method NoteFirstPage(loc0: int)
      requires Valid()
      modifies this`firstPage
      ensures !firstDecode ==> firstPage == old(firstPage)
      ensures firstDecode ==> firstPage == PageFrom(old(firstPage).start, segments[..segmentCount], loc0)
    {
      if firstDecode {
        var len := SegmentTotal();
        firstPage := firstPage.(end := firstPage.start + HEADER + segmentCount + len, lastSample := loc0);
      }
    }

    method SegmentTotal() returns (len: nat)
      requires Valid()
      ensures len == Sum(segments[..segmentCount])
    {
      len := 0;
      for i := 0 to segmentCount
        invariant len == Sum(segments[..i])
      {
        SumSnoc(segments, i);
        len := len + segments[i];
      }
    }

    // Takes in the segment table and starts at its first segment.
    method LoadTable(n: byte, loc0: int, loc1: int) returns (ok: bool)
      requires Valid() && nextSeg == -1
      modifies this`pos, this`eof, this`error, this`segments, this`segmentCount, this`nextSeg,
               this`endSegWithKnownLoc, this`knownLocForPacket, this`granuleKnown
      ensures Valid() && old(pos) <= pos && (old(eof) ==> eof)
      ensures ok <==> old(pos) + n <= |stream|
      ensures ok ==>
                && segments == stream[old(pos)..pos] + old(segments)[n..]
                && C() == old(C()).(pos := pos, segments := segments, count := n, next := 0)
                && pos == old(pos) + n && eof == old(eof) && error == old(error)
                && Noted() && granuleKnown == (loc0 != 0xFFFF_FFFF || loc1 != 0xFFFF_FFFF)
      ensures ok && n == 0 ==> segments == old(segments)
      ensures !ok ==> nextSeg == -1 && error == UnexpectedEof
    {
      segmentCount := n;
      ok := GetSegmentTable(n);
      if !ok {
        error := UnexpectedEof;
        return;
      }
      MarkKnownLoc(loc0, loc1);
      granuleKnown := loc0 != 0xFFFF_FFFF || loc1 != 0xFFFF_FFFF;
      nextSeg := 0;
    }

    method StartPage() returns (ok: bool)
      requires Valid() && nextSeg == -1
      modifies this`pos, this`eof, this`error, this`pageFlag, this`segments, this`segmentCount, this`nextSeg,
               this`endSegWithKnownLoc, this`knownLocForPacket, this`granuleKnown, this`firstPage
      ensures Valid() && (ok || nextSeg == -1) && (old(Trouble()) ==> Trouble())
      ensures Started(stream, old(pos), old(C()), ok, C(), pageFlag)
      ensures if HeaderAt(stream, old(pos)) then eof == old(eof) && error == old(error)
              else if ok then eof else error != NoError
      ensures HeaderAt(stream, old(pos)) ==> Noted() && granuleKnown == GranuleKnown(stream, old(pos))
      ensures firstDecode && !pushMode && HeaderAt(stream, old(pos)) ==> firstPage == PageNoted(stream, old(pos))
    {
      ok := CapturePattern();
      if !ok {
        error := MissingCapturePattern;
        return;
      }
      ok := StartPageNoCapturePattern();
    }

    // ----- packets -----

    /** Begins a packet at the reader's position, opening a page where needed. */
    method StartPacket() returns (ok: bool)
      requires Valid()
      modifies this
      ensures Valid() && old(pos) <= pos && (old(Trouble()) ==> Trouble())
      ensures ok <==> old(nextSeg) >= 0 || (Opens(stream, old(pos)) && !FlagRead(stream, old(pos)))
      ensures ok ==>
                C() == Fresh(if old(nextSeg) >= 0 then old(C()) else OpenPage(stream, old(C()))) && packetBytes == 0
      ensures BeginPacket(stream, old(C())).Some? ==>
                && ok && C() == BeginPacket(stream, old(C())).value
                && eof == old(eof) && error == old(error) && (old(Noted()) ==> Marked())
      ensures BeginPacket(stream, old(C())).None? ==> Trouble()
    {
      while nextSeg == -1
        invariant Valid() && old(pos) <= pos && (old(Trouble()) ==> Trouble())
        invariant nextSeg == -1 ==> C() == old(C())
        invariant nextSeg == -1 || old(nextSeg) != -1 ==>
                  eof == old(eof) && error == old(error) && (old(Noted()) ==> Noted())
        invariant nextSeg != -1 && old(nextSeg) != -1 ==> C() == old(C())
        invariant nextSeg != -1 && old(nextSeg) == -1 ==> Opened(stream, old(C()), C())
        invariant nextSeg != -1 && old(nextSeg) == -1 ==>
                    if HeaderAt(stream, old(pos)) then eof == old(eof) && error == old(error) && Noted() else eof
        decreases nextSeg == -1
      {
        ok := StartPage();
        if !ok { return; }
        if pageFlag % 2 == 1 {
          error := ContinuedFlagInvalid;
          return false;
        }
      }
      lastSeg := false;
      packetBytes := 0;
      bytesInSeg := 0;
      ok := true;
    }

    // Opens the page that goes on with the packet.
    method OpenContinuation() returns (ok: bool)
      requires Valid() && nextSeg == -1 && bytesInSeg == 0 && !lastSeg
      modifies this
      ensures Valid() && old(pos) <= pos && bytesInSeg == 0 && packetBytes == old(packetBytes)
      ensures ok <==> Opens(stream, old(pos)) && FlagRead(stream, old(pos))
      ensures ok ==> C() == OpenPage(stream, old(C()))
      ensures lastSeg <==> !Opens(stream, old(pos))
      ensures if ok && HeaderAt(stream, old(pos)) then eof == old(eof) && error == old(error) else Trouble()
      ensures HeaderAt(stream, old(pos)) ==> Noted()
    {
      lastSegWhich := segmentCount - 1;
      ok := StartPage();
      if !ok {
        lastSeg := true;
        return;
      }
      if pageFlag % 2 != 1 {
        error := ContinuedFlagInvalid;
        ok := false;
      }
    }

    method TakeNext() returns (len: nat)
      requires Valid() && nextSeg >= 0 && bytesInSeg == 0 && !lastSeg
      modifies this`nextSeg, this`lastSeg, this`lastSegWhich, this`bytesInSeg
      ensures Valid() && C() == TakeSegment(old(C())) && len == bytesInSeg
      ensures lastSeg && segmentCount > 0 ==> MarksLast()
    {
      len := segments[nextSeg];
      nextSeg := nextSeg + 1;
      if len < 255 {
        lastSeg := true;
        lastSegWhich := nextSeg - 1;
      }
      if nextSeg >= segmentCount {
        nextSeg := -1;
      }
      bytesInSeg := len;
    }

    /** Goes to the next segment of the packet; its length, or 0. */
    method NextSegment() returns (len: nat)
      requires Valid() && bytesInSeg == 0
      modifies this
      ensures Valid() && old(pos) <= pos && (old(Trouble()) ==> Trouble()) && packetBytes == old(packetBytes)
      ensures old(lastSeg) ==> len == 0 && C() == old(C()) && eof == old(eof) && error == old(error)
      ensures !old(lastSeg) ==> Went(stream, old(C()), len, C())
      ensures !old(lastSeg) ==>
                if Advance(stream, old(C())).Some? then eof == old(eof) && error == old(error) else Trouble()
      ensures !old(lastSeg) && old(Noted()) && Advance(stream, old(C())).Some? ==> Marked()
    {
      if lastSeg { return 0; }
      if nextSeg == -1 {
        var ok := OpenContinuation();
        if !ok { return 0; }
      }
      len := TakeNext();
    }

    // Makes sure that the current segment has a byte, unless the packet is over.
    method EnsureByte() returns (more: bool)
      requires Valid()
      modifies this
      ensures Valid() && old(pos) <= pos && (old(Trouble()) ==> Trouble()) && packetBytes == old(packetBytes)
      ensures more ==> bytesInSeg > 0 && Reached(old(C()), C())
      ensures KeepsAhead(stream, old(C()), C(), more) && KeepsReceived(stream, old(C()), C(), more)
      ensures PacketAhead(stream, old(C())).Some? ==>
                eof == old(eof) && error == old(error) && (old(Marked()) ==> Marked())
      ensures PacketAhead(stream, old(C())).None? ==> Trouble() || (more && PacketAhead(stream, C()).None?)
    {
      if bytesInSeg != 0 { return true; }
      ghost var c := C();
      if lastSeg {
        EndOfPacket(stream, c);
        return false;
      }
      NextAhead(stream, c);
      ReceivedBySegment(stream, c);
      var len := NextSegment();
      more := len != 0;
    }

    /** The next byte of the packet, or EOP: the first of the bytes that the reader receives.
        Nothing goes wrong if the packet is wholly there; otherwise something has by the time
        its end is reached. */
    method Get8PacketRaw() returns (r: int)
      requires Valid()
      modifies this
      ensures Valid() && -1 <= r < 256 && (old(Trouble()) ==> Trouble())
      ensures ByteReceived(stream, old(C()), r, C())
      ensures ByteRead(stream, old(C()), r, C())
      ensures PacketAhead(stream, old(C())).Some? ==>
                eof == old(eof) && error == old(error) && (old(Marked()) ==> Marked())
      ensures PacketAhead(stream, old(C())).None? ==> Trouble() || (r != EOP && PacketAhead(stream, C()).None?)
      ensures r != EOP ==> packetBytes == old(packetBytes) + 1 && Further(old(C()), C())
    {
      ghost var c0 := C();
      var more := EnsureByte();
      ghost var c := C();
      if !more {
        ReadEnd(stream, c0, c);
        return EOP;
      }
      r := TakeByte();
      ByteGot(stream, c0, c, r);
    }

    method TakeByte() returns (r: byte)
      requires Valid() && bytesInSeg > 0
      modifies this`pos, this`eof, this`bytesInSeg, this`packetBytes
      ensures Valid() && packetBytes == old(packetBytes) + 1
      ensures C() == ByteBehind(stream, old(C()))
      ensures if old(pos) < |stream| then r == stream[old(pos)] && eof == old(eof) else r == 0 && eof
      ensures old(Marked()) ==> Marked()
    {
      bytesInSeg := bytesInSeg - 1;
      packetBytes := packetBytes + 1;
      r := Get8();
    }

    /** Reads the packet to its end: the bytes that the reader receives, where it ends, and
        whether it stays there.  A packet that is wholly there comes out byte for byte, however
        many pages it spans, and nothing goes wrong; otherwise something does.  Afterwards the
        two segment notes are equal exactly when the packet is the last one to end on a page
        that carries a granule position. */
    method ReadPacket() returns (bytes: seq<byte>)
      requires Valid()
      modifies this
      ensures Valid() && (old(Trouble()) ==> Trouble())
      ensures Received(stream, old(C())) == (bytes, lastSeg && bytesInSeg == 0)
      ensures match PacketAhead(stream, old(C()))
              case Some((ahead, e)) =>
                && bytes == ahead && C() == e && eof == old(eof) && error == old(error) && (old(Marked()) ==> Marked())
                && (old(Marked()) && segmentCount > 0 ==>
                      (lastSegWhich == endSegWithKnownLoc <==>
                       granuleKnown && LastToEnd(segments, segmentCount, nextSeg)))
              case None => Trouble()
    {
      bytes := [];
      ghost var start := C();
      SplitsNone(stream, start);
      while true
        invariant Valid() && (old(Trouble()) ==> Trouble())
        invariant PacketAhead(stream, start).Some? ==>
                  eof == old(eof) && error == old(error) && (old(Marked()) ==> Marked())
        invariant PacketAhead(stream, start).None? ==> Trouble() || PacketAhead(stream, C()).None?
        invariant Splits(stream, start, bytes, C())
        invariant SplitsReceived(stream, start, bytes, C())
        decreases |stream| - pos, C().SegmentsLeft(), bytesInSeg
      {
        ghost var c := C();
        var r := Get8PacketRaw();
        if r == EOP {
          SplitsAll(stream, start, bytes, c, C());
          if Marked() && lastSeg && segmentCount > 0 {
            NotesAgree(segments, segmentCount, nextSeg, lastSegWhich, granuleKnown);
          }
          return;
        }
        SplitsMore(stream, start, bytes, c, r, C());
        bytes := bytes + [r];
      }
    }

    // ----- looking ahead -----

    /** Whether the packet that starts here is wholly in memory, without moving. */
    method IsWholePacketPresent(previousLength: nat) returns (whole: bool)
      requires Valid()
      modifies this`error
      ensures whole <==> WholeAhead(stream, C(), previousLength != 0)
      ensures if whole then error == old(error) else error == NeedMoreData || error == InvalidStream
    {
      var p, first := pos, true;
      if nextSeg != -1 {
        var s;
        s, p := SkipRun(segments, segmentCount, nextSeg, p);
        RunDecides(stream, C(), s, p, previousLength != 0);
        if p > |stream| {
          error := NeedMoreData;
          return false;
        }
        if s != segmentCount { return true; }
        first := false;
      }
      var verdict := ScanPages(stream, p, first, previousLength != 0);
      if verdict != NoError {
        error := verdict;
        return false;
      }
      whole := true;
    }
  }

  lemma {:induction false} RunDecides(s: seq<byte>, c: Cursor, e: nat, q: nat, synced: bool)
    requires c.Ok() && c.pos <= |s| && 0 <= c.next <= c.count
    requires e <= c.count && (e < c.count <==> HasShort(c.segments[c.next..c.count]))
    requires q == c.pos + Sum(c.segments[c.next..c.count][..Run(c.segments[c.next..c.count])])
    ensures WholeAhead(s, c, synced) <==> q <= |s| && (e != c.count || PagesFinish(s, q, false, synced))
  {
  }

  // Goes through pages up to the one that ends the packet.
  method ScanPages(s: seq<byte>, p0: nat, first0: bool, synced: bool) returns (verdict: ReadError)
    requires p0 <= |s|
    ensures verdict == NoError <==> PagesFinish(s, p0, first0, synced)
    ensures verdict == NoError || verdict == NeedMoreData || verdict == InvalidStream
  {
    var p, first, stop := p0, first0, -1;
    while stop == -1
      invariant p <= |s|
      invariant stop == -1 ==> (PagesFinish(s, p0, first0, synced) <==> PagesFinish(s, p, first, synced))
      invariant stop != -1 ==> PagesFinish(s, p0, first0, synced)
      decreases stop == -1, |s| - p
    {
      var r;
      verdict, r := ScanPage(s, p, first, synced);
      if verdict != NoError { return; }
      stop, p := r.0, r.1;
      first := false;
    }
    verdict := NoError;
  }

  // One page of the scan: the error it meets, or where it stops and whether that ends the packet.
  method ScanPage(s: seq<byte>, p: nat, first: bool, synced: bool) returns (verdict: ReadError, r: (int, nat))
    requires p <= |s|
    ensures verdict != NoError ==>
              !PagesFinish(s, p, first, synced) && (verdict == NeedMoreData || verdict == InvalidStream)
    ensures verdict == NoError ==>
              && p < r.1 <= |s|
              && (r.0 != -1 ==> PagesFinish(s, p, first, synced))
              && (r.0 == -1 ==> (PagesFinish(s, p, first, synced) <==> PagesFinish(s, r.1, false, synced)))
  {
    r := (-1, p);
    if p + 26 >= |s| { return NeedMoreData, r; }
    if !Captured(s, p) || s[p + 4] != 0 { return InvalidStream, r; }
    if first {
      if synced && s[p + 5] % 2 == 1 { return InvalidStream, r; }
    } else if s[p + 5] % 2 != 1 {
      return InvalidStream, r;
    }
    var n := s[p + 26] as nat;
    if p + HEADER + n > |s| { return NeedMoreData, r; }
    assert HeaderAt(s, p) && FlagFits(s, p, first, synced);
    var table := TableAt(s, p);
    var e, t := SkipRun(table, n, 0, p + HEADER + n);
    PageDecides(s, p, first, synced, e, t);
    if t > |s| { return NeedMoreData, r; }
    r := (if e == n then -1 else e, t);
    verdict := NoError;
  }

  lemma {:induction false} PageDecides(s: seq<byte>, p: nat, first: bool, synced: bool, e: nat, q: nat)
    requires p <= |s| && HeaderAt(s, p) && FlagFits(s, p, first, synced)
    requires var table := TableAt(s, p);
      && e <= |table| && (e < |table| <==> HasShort(table[0..|table|]))
      && q == p + HEADER + |table| + Sum(table[0..|table|][..Run(table[0..|table|])])
    ensures PagesFinish(s, p, first, synced) <==> q <= |s| && (e != |TableAt(s, p)| || PagesFinish(s, q, false, synced))
    ensures q > p
  {
    var table := TableAt(s, p);
    assert table[0..|table|] == table;
  }

  // Adds up segments from `s` to the first short one; `e == count` when there is none.
  method SkipRun(table: seq<byte>, count: nat, s: nat, p: nat) returns (e: nat, r: nat)
    requires s <= count <= |table|
    ensures s <= e <= count && (e < count <==> HasShort(table[s..count]))
    ensures r == p + Sum(table[s..count][..Run(table[s..count])])
  {
    e, r := s, p;
    ghost var l := table[s..count];
    while e < count
      invariant s <= e <= count && r == p + Sum(l[..e - s])
      invariant forall i :: 0 <= i < e - s ==> l[i] == 255
    {
      assert table[e] == l[e - s];
      SumSnoc(l, e - s);
      r := r + table[e];
      if table[e] < 255 {
        RunIs(l, e - s);
        return;
      }
      e := e + 1;
    }
    assert l[..|l|] == l;
    AllFull(l);
  }

  lemma SumSnoc(l: seq<byte>, k: nat)
    requires k < |l|
    ensures Sum(l[..k + 1]) == Sum(l[..k]) + l[k]
  {
    SumAppend(l[..k], [l[k]]);
    assert l[..k + 1] == l[..k] + [l[k]] && [l[k]][1..] == [];
  }

  lemma RunIs(l: seq<byte>, k: nat)
    requires k < |l| && l[k] < 255 && forall i :: 0 <= i < k ==> l[i] == 255
    ensures HasShort(l) && Run(l) == k + 1
  {
    assert l[Run(l) - 1] < 255;
  }

  lemma AllFull(l: seq<byte>)
    requires forall i :: 0 <= i < |l| ==> l[i] == 255
    ensures !HasShort(l) && l[..Run(l)] == l
    decreases |l|
  {
    if l != [] {
      assert forall i :: 0 <= i < |l[1..]| ==> l[1..][i] == l[i + 1];
      AllFull(l[1..]);
    }
  }

  // ----- progress -----

  predicate Reached(c0: Cursor, c: Cursor) {
    c == c0 || c.pos > c0.pos || (c.pos == c0.pos && c.SegmentsLeft() < c0.SegmentsLeft())
  }

  predicate Further(c0: Cursor, c: Cursor) {
    || c.pos > c0.pos
    || (c.pos == c0.pos && c.SegmentsLeft() < c0.SegmentsLeft())
    || (c.pos == c0.pos && c.SegmentsLeft() == c0.SegmentsLeft() && c.left < c0.left)
  }

  lemma ByteGoesFurther(c0: Cursor, c: Cursor)
    requires Reached(c0, c) && c.left > 0
    ensures Further(c0, c.(pos := c.pos + 1, left := c.left - 1)) && Further(c0, c.(left := c.left - 1))
  {
  }

  // ----- starting a page -----

  /** From `c`, with the page at `p` ahead, the reader has started the page, or has not. */
  ghost predicate Started(s: seq<byte>, p: nat, c: Cursor, ok: bool, d: Cursor, flag: byte)
    requires c.Ok()
  {
    && p <= d.pos && (ok <==> Opens(s, p))
    && (ok ==> d == OpenPage(s, c.(pos := p)) && (flag % 2 == 1 <==> FlagRead(s, p)))
    && (HeaderAt(s, p) ==> flag == s[p + 5])
  }

  /** The header at `p` has been read up to its version, which is 0. */
  predicate VersionRead(s: seq<byte>, p: nat, q: nat) {
    Captured(s, p) && (if p + 4 < |s| then s[p + 4] == 0 && q == p + 5 else q == |s|)
  }

  lemma PageStarts(s: seq<byte>, p: nat, c: Cursor, n: byte, flag: byte, ok: bool, d: Cursor)
    requires c.Ok() && VersionRead(s, p, c.pos) && p <= d.pos
    requires p + HEADER <= |s| ==>
               && n == s[p + 26] && flag == s[p + 5] && (ok <==> p + HEADER + n <= |s|)
               && (ok ==> d == c.(pos := p + HEADER + n, segments := s[p + HEADER..p + HEADER + n] + c.segments[n..],
                                  count := n, next := 0))
    requires p + HEADER > |s| ==>
               ok && d == c.(pos := |s|, count := 0, next := 0) && flag == if p + 5 < |s| then s[p + 5] else 0
    ensures Started(s, p, c, ok, d, flag)
  {
  }

  // ----- going to the next segment -----

  /** The page at `c`, which does not continue a packet, has been started. */
  ghost predicate Opened(s: seq<byte>, c: Cursor, d: Cursor)
    requires c.Ok()
  {
    Opens(s, c.pos) && !FlagRead(s, c.pos) && d == OpenPage(s, c)
  }

  /** From `c` the reader went to the next segment, or found none; `last` then says whether it
      would find none again. */
  ghost predicate Went(s: seq<byte>, c: Cursor, len: nat, d: Cursor)
    requires c.Ok() && c.pos <= |s|
  {
    match NextTaken(s, c)
    case Some(e) => d == e && len == e.left && (len > 0 ==> Reached(c, d))
    case None => len == 0 && d.left == 0 && (d.last <==> !Opens(s, c.pos))
  }

  lemma NextAhead(s: seq<byte>, c: Cursor)
    requires c.Ok() && c.pos <= |s| && c.left == 0 && !c.last
    ensures PacketAhead(s, c).Some? ==> Advance(s, c).Some? && PacketAhead(s, Advance(s, c).value) == PacketAhead(s, c)
    ensures PacketAhead(s, c).None? && Advance(s, c).Some? ==> PacketAhead(s, Advance(s, c).value).None?
    ensures Advance(s, c).Some? && Advance(s, c).value.left == 0 ==> PacketAhead(s, c).Some?
  {
    if PacketAhead(s, c).Some? { AheadBySegment(s, c); } else { NoneToSegment(s, c); }
    assert Past(c) == c;
  }

  lemma EndOfPacket(s: seq<byte>, c: Cursor)
    requires c.Ok() && c.pos <= |s| && c.left == 0 && c.last
    ensures PacketAhead(s, c).Some? && Received(s, c) == ([], true)
  {
    AheadAtEnd(s, c);
    NothingReceived(s, c);
  }

  // ----- reading a byte -----

  /** The position behind a byte; the position stays at the end of the data. */
  function ByteBehind(s: seq<byte>, c: Cursor): Cursor
    requires c.left > 0
  {
    c.(pos := if c.pos < |s| then c.pos + 1 else c.pos, left := c.left - 1)
  }

  /** From `c0` to `c1` the reader took the first byte of what it receives, or found none; it is
      then at the end if it stays there. */
  ghost predicate ByteReceived(s: seq<byte>, c0: Cursor, r: int, c1: Cursor)
    requires c0.Ok() && c1.Ok() && c0.pos <= |s| && c1.pos <= |s|
  {
    var (bytes, stays) := Received(s, c0);
    if bytes == [] then r == EOP && (stays <==> c1.last && c1.left == 0)
    else r == bytes[0] && Received(s, c1) == (bytes[1..], stays)
  }

  /** From `c0` to `c` no byte was read. */
  ghost predicate KeepsReceived(s: seq<byte>, c0: Cursor, c: Cursor, more: bool)
    requires c0.Ok() && c.Ok() && c0.pos <= |s| && c.pos <= |s|
  {
    if more then Received(s, c) == Received(s, c0) else Received(s, c0) == ([], c.last && c.left == 0)
  }

  /** From `c0` to `c1` the reader took the first byte ahead, or found none. */
  ghost predicate ByteRead(s: seq<byte>, c0: Cursor, r: int, c1: Cursor)
    requires c0.Ok() && c1.Ok()
  {
    PacketAhead(s, c0).Some? ==>
      var (bytes, e) := PacketAhead(s, c0).value;
      if bytes == [] then r == EOP && c1 == e
      else r == bytes[0] && PacketAhead(s, c1) == Some((bytes[1..], e))
  }

  /** From `c0` to `c` nothing was read; if there is no more to read, the packet is over. */
  ghost predicate KeepsAhead(s: seq<byte>, c0: Cursor, c: Cursor, more: bool)
    requires c0.Ok() && c.Ok()
  {
    PacketAhead(s, c0).Some? ==> PacketAhead(s, c) == PacketAhead(s, c0) && (!more ==> c.left == 0 && c.last)
  }

  lemma ReadEnd(s: seq<byte>, c0: Cursor, c: Cursor)
    requires c0.Ok() && c.Ok() && c.pos <= |s| && KeepsAhead(s, c0, c, false)
    ensures ByteRead(s, c0, EOP, c)
  {
    if PacketAhead(s, c0).Some? { AheadAtEnd(s, c); }
  }

  lemma ByteThere(s: seq<byte>, c0: Cursor, c: Cursor)
    requires c0.Ok() && c.Ok() && KeepsAhead(s, c0, c, true) && c.left > 0
    ensures PacketAhead(s, c0).Some? ==> c.pos < |s|
  {
    if PacketAhead(s, c0).Some? { AheadByByte(s, c); }
  }

  lemma ReadByte(s: seq<byte>, c0: Cursor, c: Cursor, r: int, c1: Cursor)
    requires c0.Ok() && c.Ok() && c1.Ok() && KeepsAhead(s, c0, c, true) && c.left > 0
    requires c.pos < |s| ==> r == s[c.pos] && c1 == c.(pos := c.pos + 1, left := c.left - 1)
    ensures ByteRead(s, c0, r, c1)
  {
    if PacketAhead(s, c0).Some? { AheadByByte(s, c); }
  }

  /** The byte taken at `c`, and the position behind it. */
  lemma ByteGot(s: seq<byte>, c0: Cursor, c: Cursor, r: byte)
    requires c0.Ok() && c.Ok() && c0.pos <= |s| && c.pos <= |s| && c.left > 0 && Reached(c0, c)
    requires KeepsAhead(s, c0, c, true) && KeepsReceived(s, c0, c, true)
    requires r == if c.pos < |s| then s[c.pos] else 0
    ensures var c1 := ByteBehind(s, c);
      && ByteReceived(s, c0, r, c1) && ByteRead(s, c0, r, c1) && Further(c0, c1)
      && (PacketAhead(s, c0).Some? ==> c.pos < |s|)
      && (PacketAhead(s, c).None? && c.pos < |s| ==> PacketAhead(s, c1).None?)
  {
    ByteGoesFurther(c0, c);
    ByteThere(s, c0, c);
    ReceivedByByte(s, c);
    if PacketAhead(s, c).None? && c.pos < |s| { NoneByByte(s, c); }
    ReadByte(s, c0, c, r, ByteBehind(s, c));
  }

  // ----- reading to the end -----

  /** What is received from `start` on is `bytes` and then what is received from `c` on. */
  ghost predicate SplitsReceived(s: seq<byte>, start: Cursor, bytes: seq<byte>, c: Cursor)
    requires start.Ok() && c.Ok() && start.pos <= |s| && c.pos <= |s|
  {
    Received(s, start) == (bytes + Received(s, c).0, Received(s, c).1)
  }

  /** The packet at `start` is `bytes` and then what is ahead of `c`. */
  ghost predicate Splits(s: seq<byte>, start: Cursor, bytes: seq<byte>, c: Cursor)
    requires start.Ok() && c.Ok()
  {
    PacketAhead(s, start).Some? ==>
      && PacketAhead(s, c).Some?
      && PacketAhead(s, start).value == (bytes + PacketAhead(s, c).value.0, PacketAhead(s, c).value.1)
  }

  lemma SplitsNone(s: seq<byte>, c: Cursor)
    requires c.Ok() && c.pos <= |s|
    ensures Splits(s, c, [], c) && SplitsReceived(s, c, [], c)
  {
    if PacketAhead(s, c).Some? { assert [] + PacketAhead(s, c).value.0 == PacketAhead(s, c).value.0; }
    assert [] + Received(s, c).0 == Received(s, c).0;
  }

  lemma {:induction false} SplitsMore(s: seq<byte>, start: Cursor, bytes: seq<byte>, c: Cursor, r: byte, d: Cursor)
    requires start.Ok() && c.Ok() && d.Ok() && start.pos <= |s| && c.pos <= |s| && d.pos <= |s|
    requires Splits(s, start, bytes, c) && ByteRead(s, c, r, d)
    requires SplitsReceived(s, start, bytes, c) && ByteReceived(s, c, r, d)
    ensures Splits(s, start, bytes + [r], d) && SplitsReceived(s, start, bytes + [r], d)
  {
    if PacketAhead(s, start).Some? { FirstMoved(bytes, r, PacketAhead(s, c).value.0); }
    FirstMoved(bytes, r, Received(s, c).0);
  }

  lemma FirstMoved(bytes: seq<byte>, r: byte, rest: seq<byte>)
    requires rest != [] && r == rest[0]
    ensures bytes + rest == bytes + [r] + rest[1..]
  {
  }

  lemma SplitsAll(s: seq<byte>, start: Cursor, bytes: seq<byte>, c: Cursor, d: Cursor)
    requires start.Ok() && c.Ok() && d.Ok() && start.pos <= |s| && c.pos <= |s| && d.pos <= |s|
    requires Splits(s, start, bytes, c) && ByteRead(s, c, EOP, d)
    requires SplitsReceived(s, start, bytes, c) && ByteReceived(s, c, EOP, d)
    ensures PacketAhead(s, start).Some? ==> PacketAhead(s, start).value == (bytes, d)
    ensures Received(s, start) == (bytes, d.last && d.left == 0)
  {
    assert bytes + [] == bytes;
  }

  // ----- what looking ahead checks -----

  /** Pages from `p` on finish the packet.  The first page may continue an older packet only
      while resynchronizing; the others must continue this one.  Empty pages are passed over. */
  predicate PagesFinish(s: seq<byte>, p: nat, first: bool, synced: bool)
    requires p <= |s|
    decreases |s| - p
  {
    && HeaderAt(s, p) && FlagFits(s, p, first, synced)
    && var table := TableAt(s, p);
       var q := p + HEADER + |table| + Sum(table[..Run(table)]);
       && q <= |s| && (HasShort(table) || PagesFinish(s, q, false, synced))
  }

  predicate FlagFits(s: seq<byte>, p: nat, first: bool, synced: bool)
    requires HeaderAt(s, p)
  {
    if first then synced ==> !ContinuedAt(s, p) else ContinuedAt(s, p)
  }

  function TableAt(s: seq<byte>, p: nat): (table: seq<byte>)
    requires HeaderAt(s, p)
    ensures |table| == s[p + 26]
  {
    s[p + HEADER..p + HEADER + s[p + 26]]
  }

  predicate WholeAhead(s: seq<byte>, c: Cursor, synced: bool)
    requires c.Ok() && c.pos <= |s|
  {
    if c.next == -1 then PagesFinish(s, c.pos, true, synced)
    else
      var l := c.segments[c.next..c.count];
      var q := c.pos + Sum(l[..Run(l)]);
      q <= |s| && (HasShort(l) || PagesFinish(s, q, false, synced))
  }

  /** The page that starts at `start` with the given lacing values. */
  function PageFrom(start: int, table: seq<byte>, loc0: int): ProbedPage {
    ProbedPage(start, start + HEADER + |table| + Sum(table), loc0)
  }

  /** The page at `p`, up to where the next one starts, and its granule position. */
  function PageNoted(s: seq<byte>, p: nat): ProbedPage
    requires HeaderAt(s, p)
  {
    PageFrom(p, TableAt(s, p), Word(s, p + 6))
  }

  lemma PageIsNoted(s: seq<byte>, p: nat, c: Cursor, ok: bool, d: Cursor, flag: byte, loc0: int)
    requires c.Ok() && HeaderAt(s, p) && Started(s, p, c, ok, d, flag) && loc0 == Word(s, p + 6)
    ensures d.count <= |d.segments| && PageFrom(p, d.segments[..d.count], loc0) == PageNoted(s, p)
  {
    assert d.segments[..d.count] == TableAt(s, p);
  }

  /** A complete header with an empty segment table. */
  predicate EmptyPageAt(s: seq<byte>, p: nat) {
    HeaderAt(s, p) && s[p + 26] == 0
  }
}
