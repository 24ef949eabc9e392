/** The bit accumulator over the bytes of a packet. */
module BitReader {
  import opened Bits
  import opened OggPackets
  import PacketReader

  const INVALID_BITS: int := -1

  // ----- bits of bytes, least significant first -----

  function BytesBits(bytes: seq<byte>): seq<bool> {
    if bytes == [] then [] else ToBits(bytes[0], OCTET) + BytesBits(bytes[1..])
  }

  /** The bit stream: the valid bits of the accumulator, then the bytes not yet taken. */
  function StreamBits(acc: nat, valid: nat, bytes: seq<byte>): seq<bool> {
    ToBits(acc, valid) + BytesBits(bytes)
  }

  predicate AccOk(acc: nat, valid: int) {
    -1 <= valid <= 32 && acc < WORD && (valid > 0 ==> acc < Pow2(valid))
  }

  /** Taking a byte in: the stream is the same. */
  lemma TakeIn(acc: nat, valid: nat, z: byte, rest: seq<byte>)
    requires valid <= 24 && acc < Pow2(valid)
    ensures var acc' := acc + Shl(z, valid);
      && acc' < Pow2(valid + 8) && AccOk(acc', valid + 8)
      && StreamBits(acc', valid + 8, rest) == StreamBits(acc, valid, [z] + rest)
  {
    var octet := OCTET;
    Pow2Values();
    ShlBound(z, acc, valid, octet);
    if valid + octet < 32 { Pow2Monotone(valid + octet, 32); }
    TakeInBits(acc, valid, z, rest, octet);
  }

  lemma TakeInBits(acc: nat, valid: nat, z: byte, rest: seq<byte>, octet: nat)
    requires octet == OCTET && acc < Pow2(valid)
    ensures StreamBits(acc + Shl(z, valid), valid + octet, rest) == StreamBits(acc, valid, [z] + rest)
  {
    AppendBits(acc, valid, z, octet);
    FirstByte(z, rest);
    Regroup(ToBits(acc, valid), ToBits(z, octet), BytesBits(rest));
  }

  lemma AppendBits(acc: nat, valid: nat, z: nat, k: nat)
    requires acc < Pow2(valid)
    ensures ToBits(acc + Shl(z, valid), valid + k) == ToBits(acc, valid) + ToBits(z, k)
  {
    var acc' := acc + Shl(z, valid);
    PartsOf(z, acc, valid);
    ToBitsSplit(acc', valid, k);
    ToBitsLow(acc', valid, valid);
  }

  lemma FirstByte(z: byte, rest: seq<byte>)
    ensures BytesBits([z] + rest) == ToBits(z, OCTET) + BytesBits(rest)
  {
    assert ([z] + rest)[1..] == rest;
  }

  lemma Regroup(a: seq<bool>, b: seq<bool>, c: seq<bool>)
    ensures a + b + c == a + (b + c)
  {
  }

  lemma {:induction false} ShlBound(q: nat, r: nat, j: nat, k: nat)
    requires r < Pow2(j) && q < Pow2(k)
    ensures r + Shl(q, j) < Pow2(j + k)
  {
    if j > 0 { ShlBound(q, r / 2, j - 1, k); }
  }

  /** Taking `n` bits out. */
  lemma {:induction false} TakeOut(acc: nat, valid: nat, n: nat, bytes: seq<byte>)
    requires n <= valid && acc < Pow2(valid)
    ensures var s := StreamBits(acc, valid, bytes);
      && n <= |s| && FromBits(s[..n]) == Low(acc, n)
      && StreamBits(Shr(acc, n), valid - n, bytes) == s[n..]
      && Shr(acc, n) < Pow2(valid - n) && Shr(acc, n) <= acc
  {
    var s := StreamBits(acc, valid, bytes);
    ToBitsSplit(acc, n, valid - n);
    FromToBits(acc, n);
    ShrBound(acc, n, valid - n);
    ShrAtMost(acc, n);
    assert s == ToBits(acc, n) + StreamBits(Shr(acc, n), valid - n, bytes);
    assert s[..n] == ToBits(acc, n);
  }

  lemma {:induction false} ShrAtMost(n: nat, k: nat)
    ensures Shr(n, k) <= n
  {
    if k > 0 { ShrAtMost(n / 2, k - 1); }
  }

  /** Two reads make one long read. */
  lemma TwoReads(s: seq<bool>, n: nat)
    requires 24 <= n <= |s|
    ensures FromBits(s[..24]) + Shl(FromBits(s[24..][..n - 24]), 24) == FromBits(s[..n])
    ensures s[24..][n - 24..] == s[n..]
  {
    var a, b := s[..24], s[24..][..n - 24];
    assert s[..n] == a + b;
    FromBitsAppend(a, b);
  }

  /** `rest` is what the packet reader at `c` still receives before it stays at the end. */
  ghost predicate Feeds(s: seq<byte>, c: Cursor, rest: seq<byte>) {
    c.Ok() && c.pos <= |s| && Received(s, c) == (rest, true)
  }

  predicate AtEnd(c: Cursor) { c.last && c.left == 0 }

  class Reader {
    const packet: PacketReader.Reader
    var acc: nat
    var validBits: int
    ghost var steady: bool     // the packet does not break off at a page that fails to continue it
    ghost var rest: seq<byte>  // its bytes that are not in the accumulator yet

    ghost predicate Valid()
      reads this, packet
    {
      && packet.Valid() && AccOk(acc, validBits)
      && (steady ==> Feeds(packet.stream, packet.C(), rest))
      && (steady && validBits < 0 ==> AtEnd(packet.C()))
    }

    ghost function Bits(): seq<bool>
      requires validBits >= 0
      reads this
    {
      StreamBits(acc, validBits, rest)
    }

    /** Right after the packet has been started. */
    constructor (source: PacketReader.Reader)
      requires source.Valid()
      ensures Valid() && packet == source && validBits == 0
      ensures (rest, steady) == Received(source.stream, source.C())
      ensures PacketAhead(source.stream, source.C()).Some? ==>
                steady && rest == PacketAhead(source.stream, source.C()).value.0
    {
      packet := source;
      acc, validBits := 0, 0;
      rest, steady := Received(source.stream, source.C()).0, Received(source.stream, source.C()).1;
      if PacketAhead(source.stream, source.C()).Some? { WholeReceived(source.stream, source.C()); }
    }

    method NextByte() returns (r: int)
      requires Valid() && validBits >= 0
      modifies packet, this`rest
      ensures Valid() && -1 <= r < 256
      ensures steady && r == PacketReader.EOP ==> AtEnd(packet.C())
      ensures steady ==> NextOf(old(rest), r, rest)
      ensures r != PacketReader.EOP ==> PacketReader.Further(old(packet.C()), packet.C())
    {
      ghost var c := packet.C();
      r := packet.Get8PacketRaw();
      if steady {
        FeedsOn(packet.stream, c, rest, r, packet.C());
        rest := if rest == [] then [] else rest[1..];
      }
    }

    // Takes one byte into the accumulator; false at the end of the packet.
    method TakeByte() returns (ok: bool)
      requires Valid() && 0 <= validBits <= 24 && acc < Pow2(validBits)
      modifies this, packet
      ensures Valid() && steady == old(steady)
      ensures Taken(ok, old(acc), old(validBits), acc, validBits)
      ensures steady ==> KeepsBits(ok, old(acc), old(validBits), old(rest), acc, validBits, rest)
      ensures ok ==> PacketReader.Further(old(packet.C()), packet.C())
      ensures steady && !ok ==> AtEnd(packet.C())
    {
      ghost var bytes := rest;
      var z := NextByte();
      if z == PacketReader.EOP {
        NoneTaken(steady, acc, validBits, bytes, rest);
        return false;
      }
      Accept(z, bytes);
      ok := true;
    }

    method Accept(z: byte, ghost bytes: seq<byte>)
      requires 0 <= validBits <= 24 && acc < Pow2(validBits)
      requires steady ==> NextOf(bytes, z, rest)
      modifies this`acc, this`validBits
      ensures AccOk(acc, validBits) && Taken(true, old(acc), old(validBits), acc, validBits)
      ensures steady ==> KeepsBits(true, old(acc), old(validBits), bytes, acc, validBits, rest)
    {
      ByteTaken(steady, acc, validBits, z, bytes, rest);
      acc := acc + Shl(z, validBits);
      validBits := validBits + 8;
    }

    // Takes one more byte in, with the stream the same as it was with `acc0`, `valid0` and `rest0`.
    method TakeMore(ghost acc0: nat, ghost valid0: nat, ghost rest0: seq<byte>) returns (ok: bool)
      requires Valid() && 0 <= validBits <= 24 && acc < Pow2(validBits)
      requires steady ==> SameBits(acc0, valid0, rest0, acc, validBits, rest)
      modifies this, packet
      ensures Valid() && steady == old(steady) && validBits >= 0 && acc < Pow2(validBits)
      ensures validBits == if ok then old(validBits) + 8 else old(validBits)
      ensures steady ==> SameBits(acc0, valid0, rest0, acc, validBits, rest)
      ensures steady && !ok ==> AtEnd(packet.C()) && |Bits()| == validBits == Prepared(validBits, |rest|)
    {
      ghost var acc1, valid1, rest1 := acc, validBits, rest;
      ok := TakeByte();
      if steady { KeepOn(acc0, valid0, rest0, acc1, valid1, rest1, acc, validBits, rest, ok); }
    }

    // Takes bytes in until `n` bits are there.
    method Fill(n: nat) returns (ok: bool)
      requires Valid() && validBits >= 0 && n <= 24
      modifies this, packet
      ensures Valid() && steady == old(steady) && validBits >= 0
      ensures ok ==> validBits == Filled(old(validBits), n)
      ensures steady && !ok ==> AtEnd(packet.C())
      ensures steady ==> SameBits(old(acc), old(validBits), old(rest), acc, validBits, rest)
      ensures steady && !ok ==> |Bits()| < n
    {
      if validBits == 0 { acc := 0; }
      while validBits < n
        invariant Valid() && steady == old(steady) && validBits >= 0 && acc < Pow2(validBits)
        invariant steady ==> SameBits(old(acc), old(validBits), old(rest), acc, validBits, rest)
        invariant Filled(validBits, n) == Filled(old(validBits), n)
        decreases n - validBits
      {
        FilledStep(validBits, n);
        ok := TakeMore(old(acc), old(validBits), old(rest));
        if !ok { return; }
      }
      ok := true;
    }

    /** Reads `n` bits, first bit lowest. */
    method GetBits(n: nat) returns (z: nat)
      requires Valid() && n <= 32 && (n == 32 ==> validBits < 32)
      modifies this, packet
      ensures Valid() && steady == old(steady)
      ensures old(validBits) < 0 ==> z == 0 && validBits < 0
      ensures steady && old(validBits) >= 0 ==>
                GotBits(old(Bits()), n, z, validBits, if validBits >= 0 then Bits() else [])
      ensures validBits >= 0 ==> validBits == LeftHeld(old(validBits), n)
      decreases n, 1
    {
      if validBits < 0 { return 0; }
      if validBits < n {
        if n > 24 {
          z := GetLong(n);
          return;
        }
        ghost var acc0, valid0, rest0 := acc, validBits, rest;
        var ok := Fill(n);
        if !ok {
          validBits := INVALID_BITS;
          return 0;
        }
        assert steady ==> StreamBits(acc, validBits, rest) == StreamBits(acc0, valid0, rest0);
      }
      z := DropBits(n);
    }

    // More bits than the accumulator is sure to take, in two reads.
    method GetLong(n: nat) returns (z: nat)
      requires Valid() && 24 < n <= 32 && 0 <= validBits < n
      modifies this, packet
      ensures Valid() && steady == old(steady)
      ensures steady ==> GotBits(old(Bits()), n, z, validBits, if validBits >= 0 then Bits() else [])
      ensures validBits >= 0 ==> validBits == LeftHeld(old(validBits), n)
      decreases n, 0
    {
      ghost var bits0 := Bits();
      z := GetBits(24);
      ghost var valid1, bits1 := validBits, if validBits >= 0 then Bits() else [];
      var high := GetBits(n - 24);
      if steady { TwoGot(bits0, n, z, valid1, bits1, high, validBits, if validBits >= 0 then Bits() else []); }
      z := z + Shl(high, 24);
    }

    // Takes out `n` of the bits that are there.
    method DropBits(n: nat) returns (z: nat)
      requires AccOk(acc, validBits) && n <= validBits
      modifies this`acc, this`validBits
      ensures AccOk(acc, validBits) && validBits == old(validBits) - n && acc == Shr(old(acc), n)
      ensures GotBits(old(Bits()), n, z, validBits, Bits())
    {
      if n > 0 { TakeOut(acc, validBits, n, rest); } else { NothingTaken(Bits()); }
      z := Low(acc, n);
      acc := Shr(acc, n);
      validBits := validBits - n;
    }

    /** Tops the accumulator up as far as it goes; the stream stays the same.  After a failed
        read there is nothing to do. */
    method PrepHuffman()
      requires Valid() && (validBits >= 0 || steady)
      modifies this, packet
      ensures Valid() && steady == old(steady)
      ensures old(validBits) < 0 ==> unchanged(this, packet)
      ensures old(validBits) >= 0 ==> validBits >= 0 && acc < Pow2(validBits)
      ensures steady && old(validBits) >= 0 ==>
                && SameBits(old(acc), old(validBits), old(rest), acc, validBits, rest)
                && validBits == Prepared(old(validBits), |old(rest)|)
    {
      if validBits <= 24 {
        if validBits == 0 { acc := 0; }
        while validBits <= 24
          invariant Valid() && steady == old(steady)
          invariant if old(validBits) < 0 then unchanged(this, packet) else validBits >= 0 && acc < Pow2(validBits)
          invariant steady && old(validBits) >= 0 ==>
                    SameBits(old(acc), old(validBits), old(rest), acc, validBits, rest)
          decreases 32 - validBits
        {
          if packet.lastSeg && packet.bytesInSeg == 0 {
            if steady { FeedsNothing(packet.stream, packet.C(), rest); }
            return;
          }
          var ok := TakeMore(old(acc), old(validBits), old(rest));
          if !ok { return; }
        }
      }
    }
  }

  lemma {:induction false} BytesBitsLength(bytes: seq<byte>)
    ensures |BytesBits(bytes)| == 8 * |bytes|
  {
    if bytes != [] { BytesBitsLength(bytes[1..]); }
  }

  /** How many bits the accumulator holds after it has been topped up. */
  function Prepared(valid: nat, bytes: nat): (v: nat)
    ensures valid <= v <= valid + 8 * bytes && (v > 24 || v == valid + 8 * bytes) && (valid <= 32 ==> v <= 32)
    decreases bytes
  {
    if valid > 24 || bytes == 0 then valid else Prepared(valid + 8, bytes - 1)
  }

  /** How many bits are held once bytes have been taken in for a read of at most 24 bits. */
  function Filled(valid: nat, n: nat): (v: nat)
    ensures v >= n && v >= valid
    decreases n - valid
  {
    if valid >= n then valid else Filled(valid + 8, n)
  }

  /** No more bytes are taken in than the read needs, and by topping up none that do not fit. */
  lemma {:induction false} FilledLeast(valid: nat, n: nat, bytes: nat)
    ensures var v := Filled(valid, n); v >= n && (v - valid) % 8 == 0 && (v > valid ==> v - 8 < n)
    ensures var v := Prepared(valid, bytes); v > 24 || v == valid + 8 * bytes
    ensures var v := Prepared(valid, bytes); (v - valid) % 8 == 0 && (v > valid ==> v - 8 <= 24)
    decreases n - valid, bytes
  {
    if valid < n { FilledLeast(valid + 8, n, bytes); }
    PreparedLeast(valid, bytes);
  }

  lemma {:induction false} PreparedLeast(valid: nat, bytes: nat)
    ensures var v := Prepared(valid, bytes); (v - valid) % 8 == 0 && (v > valid ==> v - 8 <= 24)
    decreases bytes
  {
    if valid <= 24 && bytes > 0 { PreparedLeast(valid + 8, bytes - 1); }
  }

  lemma FilledStep(valid: nat, n: nat)
    requires valid < n
    ensures Filled(valid, n) == Filled(valid + 8, n)
  {
  }

  /** How many bits are held after a read: a long one is made of two. */
  function LeftHeld(valid: int, n: nat): nat
    decreases n
  {
    if valid < 0 then 0
    else if valid >= n then valid - n
    else if n > 24 then LeftHeld(LeftHeld(valid, 24), n - 24)
    else Filled(valid, n) - n
  }

  ghost predicate SameBits(acc0: nat, valid0: nat, rest0: seq<byte>, acc: nat, valid: nat, rest: seq<byte>) {
    && StreamBits(acc, valid, rest) == StreamBits(acc0, valid0, rest0)
    && Prepared(valid, |rest|) == Prepared(valid0, |rest0|)
  }

  lemma KeepOn(acc0: nat, valid0: nat, rest0: seq<byte>, acc1: nat, valid1: nat, rest1: seq<byte>,
               acc: nat, valid: nat, rest: seq<byte>, ok: bool)
    requires SameBits(acc0, valid0, rest0, acc1, valid1, rest1) && KeepsBits(ok, acc1, valid1, rest1, acc, valid, rest)
    requires Taken(ok, acc1, valid1, acc, valid) && valid1 <= 24
    ensures SameBits(acc0, valid0, rest0, acc, valid, rest)
    ensures !ok ==> rest == [] && |StreamBits(acc, valid, rest)| == valid && Prepared(valid, 0) == valid
  {
  }

  /** The result of reading `n` bits from the stream `bits`. */
  predicate GotBits(bits: seq<bool>, n: nat, z: nat, valid: int, after: seq<bool>) {
    if n <= |bits| then valid >= 0 && z == FromBits(bits[..n]) && after == bits[n..]
    else valid == INVALID_BITS && z == if 24 <= |bits| && 24 < n then FromBits(bits[..24]) else 0
  }

  lemma NothingTaken(bits: seq<bool>)
    ensures GotBits(bits, 0, 0, 0, bits)
  {
    assert bits[..0] == [] && bits[0..] == bits;
  }

  lemma TwoGot(bits: seq<bool>, n: nat, z: nat, valid1: int, bits1: seq<bool>, high: nat, valid: int, after: seq<bool>)
    requires 24 < n <= 32 && GotBits(bits, 24, z, valid1, bits1)
    requires valid1 < 0 ==> high == 0 && valid == INVALID_BITS
    requires valid1 >= 0 ==> GotBits(bits1, n - 24, high, valid, after)
    ensures GotBits(bits, n, z + Shl(high, 24), valid, after)
  {
    var k := 24;
    if n <= |bits| { TwoReads(bits, n); }
    ShlZero(k);
  }

  ghost predicate NextOf(bytes: seq<byte>, r: int, rest: seq<byte>) {
    if bytes == [] then r == PacketReader.EOP && rest == [] else r == bytes[0] && rest == bytes[1..]
  }

  lemma NoneTaken(steady: bool, acc: nat, valid: nat, bytes: seq<byte>, rest: seq<byte>)
    requires steady ==> NextOf(bytes, PacketReader.EOP, rest)
    ensures Taken(false, acc, valid, acc, valid)
    ensures steady ==> KeepsBits(false, acc, valid, bytes, acc, valid, rest)
  {
  }

  predicate Taken(ok: bool, acc0: nat, valid0: int, acc: nat, valid: int) {
    if ok then 0 <= valid == valid0 + 8 && acc < Pow2(valid) else valid == valid0 && acc == acc0
  }

  ghost predicate KeepsBits(ok: bool, acc0: nat, valid0: nat, rest0: seq<byte>, acc: nat, valid: nat, rest: seq<byte>) {
    && (ok <==> rest0 != []) && rest == (if ok then rest0[1..] else [])
    && StreamBits(acc, valid, rest) == StreamBits(acc0, valid0, rest0)
  }

  lemma ByteTaken(steady: bool, acc: nat, valid: nat, z: byte, bytes: seq<byte>, rest: seq<byte>)
    requires valid <= 24 && acc < Pow2(valid)
    requires steady ==> NextOf(bytes, z, rest)
    ensures var acc' := acc + Shl(z, valid);
      && AccOk(acc', valid + 8) && Taken(true, acc, valid, acc', valid + 8)
      && (steady ==> KeepsBits(true, acc, valid, bytes, acc', valid + 8, rest))
  {
    TakeIn(acc, valid, z, rest);
    if steady { assert bytes == [z] + rest; }
  }

  lemma FeedsNothing(s: seq<byte>, c: Cursor, rest: seq<byte>)
    requires Feeds(s, c, rest) && AtEnd(c)
    ensures rest == []
  {
    NothingReceived(s, c);
  }

  lemma FeedsOn(s: seq<byte>, c: Cursor, rest: seq<byte>, r: int, d: Cursor)
    requires Feeds(s, c, rest) && d.Ok() && d.pos <= |s| && PacketReader.ByteReceived(s, c, r, d)
    ensures rest == [] ==> r == PacketReader.EOP && AtEnd(d) && Feeds(s, d, [])
    ensures rest != [] ==> r == rest[0] && Feeds(s, d, rest[1..])
  {
    if rest == [] { NothingReceived(s, d); }
  }
}
