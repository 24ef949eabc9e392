/** The page checksum: a table of remainders, one byte at a time.  A machine word is its 32
    bits, least significant first. */
module Checksum {
  import opened Bits
  import opened OggPackets

  type Word = seq<bool>

  function Zeros(k: nat): seq<bool> { seq(k, _ => false) }

  function Xor(a: seq<bool>, b: seq<bool>): (r: seq<bool>)
    requires |a| == |b|
    ensures |r| == |a| && forall i :: 0 <= i < |a| ==> r[i] == (a[i] != b[i])
  {
    seq(|a|, i requires 0 <= i < |a| => a[i] != b[i])
  }

  /** One place of the division: shift, and subtract the divisor if a one falls out. */
  function Step(g: Word, s: Word): (r: Word)
    requires |g| == |s| == 32
    ensures |r| == 32
  {
    seq(32, i requires 0 <= i < 32 => (i > 0 && s[i - 1]) != (s[31] && g[i]))
  }

  function Steps(g: Word, s: Word, k: nat): (r: Word)
    requires |g| == |s| == 32
    ensures |r| == 32
    decreases |s|, k
  {
    if k == 0 then s else Steps(g, Step(g, s), k - 1)
  }

  // ----- steps are linear and lose nothing -----

  lemma StepLinear(g: Word, a: Word, b: Word)
    requires |g| == |a| == |b| == 32
    ensures Step(g, Xor(a, b)) == Xor(Step(g, a), Step(g, b))
  {
    assert forall i :: 0 <= i < 32 ==> Step(g, Xor(a, b))[i] == (Step(g, a)[i] != Step(g, b)[i]);
  }

  lemma {:induction false} StepsLinear(g: Word, a: Word, b: Word, k: nat)
    requires |g| == |a| == |b| == 32
    ensures Steps(g, Xor(a, b), k) == Xor(Steps(g, a, k), Steps(g, b, k))
    decreases k
  {
    if k > 0 {
      StepLinear(g, a, b);
      StepsLinear(g, Step(g, a), Step(g, b), k - 1);
    }
  }

  lemma StepInjective(g: Word, a: Word, b: Word)
    requires |g| == |a| == |b| == 32 && g[0] && Step(g, a) == Step(g, b)
    ensures a == b
  {
    assert Step(g, a)[0] == a[31] && Step(g, b)[0] == b[31];
    forall i | 0 <= i < 31 ensures a[i] == b[i] {
      assert Step(g, a)[i + 1] == (a[i] != (a[31] && g[i + 1]));
      assert Step(g, b)[i + 1] == (b[i] != (b[31] && g[i + 1]));
    }
  }

  lemma {:induction false} StepsInjective(g: Word, a: Word, b: Word, k: nat)
    requires |g| == |a| == |b| == 32 && g[0] && Steps(g, a, k) == Steps(g, b, k)
    ensures a == b
    decreases k
  {
    if k > 0 {
      StepsInjective(g, Step(g, a), Step(g, b), k - 1);
      StepInjective(g, a, b);
    }
  }

  lemma {:induction false} StepsAdd(g: Word, s: Word, j: nat, k: nat)
    requires |g| == |s| == 32
    ensures Steps(g, s, j + k) == Steps(g, Steps(g, s, j), k)
    decreases j
  {
    if j > 0 { StepsAdd(g, Step(g, s), j - 1, k); }
  }

  /** While nothing falls out, steps just shift. */
  lemma {:induction false} StepsShift(g: Word, s: Word, k: nat)
    requires |g| == |s| == 32 && k <= 32 && forall i :: 32 - k <= i < 32 ==> !s[i]
    ensures Steps(g, s, k) == Zeros(k) + s[..32 - k]
    decreases k
  {
    if k > 0 {
      var t := Step(g, s);
      assert t == [false] + s[..31];
      StepsShift(g, t, k - 1);
      assert t[..33 - k] == [false] + s[..32 - k];
    }
  }

  // ----- one bit at a time -----

  /** The bits in the highest places, first bit on top. */
  function Place(bits: seq<bool>): (w: Word)
    requires |bits| <= 32
    ensures |w| == 32
  {
    seq(32, i requires 0 <= i < 32 => 31 - i < |bits| && bits[31 - i])
  }

  /** The remainder register fed one message bit at a time. */
  function Feed(g: Word, crc: Word, bits: seq<bool>): (r: Word)
    requires |g| == |crc| == 32
    ensures |r| == 32
    decreases |bits|
  {
    if bits == [] then crc else Feed(g, Step(g, Xor(crc, Place(bits[..1]))), bits[1..])
  }

  lemma {:induction false} FeedAppend(g: Word, crc: Word, a: seq<bool>, b: seq<bool>)
    requires |g| == |crc| == 32
    ensures Feed(g, crc, a + b) == Feed(g, Feed(g, crc, a), b)
    decreases |a|
  {
    if a == [] {
      assert a + b == b;
    } else {
      assert (a + b)[..1] == a[..1] && (a + b)[1..] == a[1..] + b;
      FeedAppend(g, Step(g, Xor(crc, Place(a[..1]))), a[1..], b);
    }
  }

  lemma PlaceSplit(g: Word, bits: seq<bool>)
    requires |g| == 32 && 1 <= |bits| <= 32
    ensures Step(g, Place(bits)) == Xor(Step(g, Place(bits[..1])), Place(bits[1..]))
  {
    var lower := [false] + bits[1..];
    var shifted := Place(lower);
    assert Place(bits) == Xor(Place(bits[..1]), shifted);
    StepLinear(g, Place(bits[..1]), shifted);
    assert Step(g, shifted) == Place(bits[1..]);
  }

  /** Feeding up to a word of bits is adding them at once, then stepping. */
  lemma {:induction false} FeedAtOnce(g: Word, crc: Word, bits: seq<bool>)
    requires |g| == |crc| == 32 && |bits| <= 32
    ensures Feed(g, crc, bits) == Steps(g, Xor(crc, Place(bits)), |bits|)
    decreases |bits|
  {
    if bits == [] {
      assert Xor(crc, Place(bits)) == crc;
    } else {
      var c := Step(g, Xor(crc, Place(bits[..1])));
      FeedAtOnce(g, c, bits[1..]);
      StepLinear(g, crc, Place(bits[..1]));
      StepLinear(g, crc, Place(bits));
      PlaceSplit(g, bits);
      assert Xor(c, Place(bits[1..])) == Step(g, Xor(crc, Place(bits)));
    }
  }

  // ----- the division it stands for -----

  /** Long division: the register holds 32 places of the dividend, the next comes in below. */
  function Divide(g: Word, register: Word, dividend: seq<bool>): (r: Word)
    requires |g| == |register| == 32
    ensures |r| == 32
    decreases |dividend|
  {
    if dividend == [] then register
    else Divide(g, Xor(Step(g, register), [dividend[0]] + Zeros(31)), dividend[1..])
  }

  lemma {:induction false} DivideZeros(g: Word, register: Word, k: nat)
    requires |g| == |register| == 32
    ensures Divide(g, register, Zeros(k)) == Steps(g, register, k)
    decreases k
  {
    if k > 0 {
      assert Zeros(k)[1..] == Zeros(k - 1);
      assert Xor(Step(g, register), [false] + Zeros(31)) == Step(g, register);
      DivideZeros(g, Step(g, register), k - 1);
    }
  }

  lemma {:induction false} DivideAppend(g: Word, register: Word, a: seq<bool>, b: seq<bool>)
    requires |g| == |register| == 32
    ensures Divide(g, register, a + b) == Divide(g, Divide(g, register, a), b)
    decreases |a|
  {
    if a == [] {
      assert a + b == b;
    } else {
      assert (a + b)[0] == a[0] && (a + b)[1..] == a[1..] + b;
      DivideAppend(g, Xor(Step(g, register), [a[0]] + Zeros(31)), a[1..], b);
    }
  }

  /** A bit that comes in below reaches the top after 31 steps. */
  lemma BitRises(g: Word, b: bool, k: nat)
    requires |g| == 32 && k == 32
    ensures Steps(g, [b] + Zeros(31), k) == Step(g, Place([b]))
  {
    var low := [b] + Zeros(31);
    StepsShift(g, low, k - 1);
    assert Zeros(k - 1) + low[..1] == Place([b]);
    StepsAdd(g, low, k - 1, 1);
    OneStep(g, Place([b]));
  }

  lemma {:induction false} FeedIsDivision(g: Word, register: Word, message: seq<bool>, k: nat)
    requires |g| == |register| == 32 && k == 32
    ensures Feed(g, Steps(g, register, k), message) == Steps(g, Divide(g, register, message), k)
    decreases |message|
  {
    if message != [] {
      var b, next := message[0], Xor(Step(g, register), [message[0]] + Zeros(31));
      FeedIsDivision(g, next, message[1..], k);
      StepsLinear(g, Step(g, register), [b] + Zeros(31), k);
      BitRises(g, b, k);
      StepsAdd(g, register, 1, k);
      StepsAdd(g, register, k, 1);
      OneStep(g, register);
      OneStep(g, Steps(g, register, k));
      assert message[..1] == [b];
      StepLinear(g, Steps(g, register, k), Place([b]));
    }
  }

  lemma OneStep(g: Word, s: Word)
    requires |g| == |s| == 32
    ensures Steps(g, s, 1) == Step(g, s)
  {
    assert Steps(g, Step(g, s), 0) == Step(g, s);
  }

  /** From an empty register, the checksum is the remainder of the message followed by 32 zeros. */
  lemma ChecksumIsRemainder(g: Word, message: seq<bool>)
    requires |g| == 32
    ensures Feed(g, Zeros(32), message) == Divide(g, Zeros(32), message + Zeros(32))
  {
    var zero, k := Zeros(32), 32;
    StepsShift(g, zero, k);
    assert Zeros(k) + zero[..32 - k] == zero;
    FeedIsDivision(g, zero, message, k);
    DivideAppend(g, zero, message, zero);
    DivideZeros(g, Divide(g, zero, message), k);
  }

  // ----- errors that cannot go unnoticed -----

  /** The checksum tells apart any two messages that differ within 32 bits. */
  lemma DetectsBurst(g: Word, crc: Word, before: seq<bool>, a: seq<bool>, b: seq<bool>, after: seq<bool>)
    requires |g| == |crc| == 32 && g[0] && |a| == |b| <= 32 && a != b
    ensures Feed(g, crc, before + a + after) != Feed(g, crc, before + b + after)
  {
    var c := Feed(g, crc, before);
    FeedAppend(g, crc, before + a, after);
    FeedAppend(g, crc, before + b, after);
    FeedAppend(g, crc, before, a);
    FeedAppend(g, crc, before, b);
    DetectsChange(g, c, a, b);
    if Feed(g, Feed(g, c, a), after) == Feed(g, Feed(g, c, b), after) {
      FeedInjective(g, Feed(g, c, a), Feed(g, c, b), after);
    }
  }

  lemma DetectsChange(g: Word, c: Word, a: seq<bool>, b: seq<bool>)
    requires |g| == |c| == 32 && g[0] && |a| == |b| <= 32 && a != b
    ensures Feed(g, c, a) != Feed(g, c, b)
  {
    FeedAtOnce(g, c, a);
    FeedAtOnce(g, c, b);
    if Feed(g, c, a) == Feed(g, c, b) {
      var x, y := Xor(c, Place(a)), Xor(c, Place(b));
      StepsInjective(g, x, y, |a|);
      SamePlaced(c, a, b);
    }
  }

  lemma SamePlaced(c: Word, a: seq<bool>, b: seq<bool>)
    requires |c| == 32 && |a| == |b| <= 32 && Xor(c, Place(a)) == Xor(c, Place(b))
    ensures a == b
  {
    forall i | 0 <= i < |a| ensures a[i] == b[i] {
      assert Xor(c, Place(a))[31 - i] == Xor(c, Place(b))[31 - i];
    }
  }

  lemma {:induction false} FeedInjective(g: Word, x: Word, y: Word, bits: seq<bool>)
    requires |g| == |x| == |y| == 32 && g[0] && Feed(g, x, bits) == Feed(g, y, bits)
    ensures x == y
    decreases |bits|
  {
    if bits != [] {
      var p := Place(bits[..1]);
      FeedInjective(g, Step(g, Xor(x, p)), Step(g, Xor(y, p)), bits[1..]);
      StepInjective(g, Xor(x, p), Xor(y, p));
      forall i | 0 <= i < 32 ensures x[i] == y[i] { assert Xor(x, p)[i] == Xor(y, p)[i]; }
    }
  }

  // ----- a byte at a time, by table -----

  /** A byte on top of a word. */
  function High(b: nat): (w: Word)
    ensures |w| == 32
  {
    Zeros(24) + ToBits(b, OCTET)
  }

  ghost predicate TableOk(g: Word, table: seq<Word>)
    requires |g| == 32
  {
    |table| == 256 && forall i :: 0 <= i < 256 ==> table[i] == Steps(g, High(i), OCTET)
  }

  method InitTable(g: Word) returns (table: seq<Word>)
    requires |g| == 32
    ensures TableOk(g, table)
  {
    table := [];
    for i := 0 to 256
      invariant |table| == i && forall k :: 0 <= k < i ==> table[k] == Steps(g, High(k), OCTET)
    {
      var s := High(i);
      for j := 0 to 8
        invariant |s| == 32 && Steps(g, s, OCTET - j) == Steps(g, High(i), OCTET)
      {
        s := Step(g, s);
      }
      table := table + [s];
    }
  }

  function Index(crc: Word, b: byte): (i: nat)
    requires |crc| == 32
    ensures i < 256
  {
    var bits := Xor(ToBits(b, OCTET), crc[24..]);
    Pow2Values();
    FromBits(bits)
  }

  function Update(g: Word, table: seq<Word>, crc: Word, b: byte): (r: Word)
    requires |g| == |crc| == 32 && TableOk(g, table)
    ensures |r| == 32
  {
    Xor(Zeros(8) + crc[..24], table[Index(crc, b)])
  }

  /** The bits of a byte, most significant first. */
  function ByteBits(b: byte): (r: seq<bool>)
    ensures |r| == 8
  {
    Flip(ToBits(b, OCTET))
  }

  /** Looking a byte up is feeding its eight bits. */
  lemma UpdateFeeds(g: Word, table: seq<Word>, crc: Word, b: byte)
    requires |g| == |crc| == 32 && TableOk(g, table)
    ensures Update(g, table, crc, b) == Feed(g, crc, ByteBits(b))
  {
    var octet, bits := OCTET, ToBits(b, OCTET);
    var low, high := crc[..24] + Zeros(8), Xor(bits, crc[24..]);
    FeedAtOnce(g, crc, ByteBits(b));
    BytePlaced(b);
    ToFromBits(high);
    TopAndRest(crc, bits);
    StepsLinear(g, low, Zeros(24) + high, octet);
    RestShifted(g, crc);
  }

  lemma BytePlaced(b: byte)
    ensures Place(ByteBits(b)) == Zeros(24) + ToBits(b, OCTET)
  {
  }

  lemma TopAndRest(crc: Word, bits: seq<bool>)
    requires |crc| == 32 && |bits| == 8
    ensures Xor(crc, Zeros(24) + bits) == Xor(crc[..24] + Zeros(8), Zeros(24) + Xor(bits, crc[24..]))
  {
  }

  lemma RestShifted(g: Word, crc: Word)
    requires |g| == |crc| == 32
    ensures Steps(g, crc[..24] + Zeros(8), OCTET) == Zeros(8) + crc[..24]
  {
    var octet, low := OCTET, crc[..24] + Zeros(8);
    StepsShift(g, low, octet);
    assert Zeros(octet) + low[..32 - octet] == Zeros(8) + crc[..24];
  }

  function CrcOf(g: Word, table: seq<Word>, crc: Word, bytes: seq<byte>): (r: Word)
    requires |g| == |crc| == 32 && TableOk(g, table)
    ensures |r| == 32
    decreases |bytes|
  {
    if bytes == [] then crc else CrcOf(g, table, Update(g, table, crc, bytes[0]), bytes[1..])
  }

  function MessageBits(bytes: seq<byte>): seq<bool> {
    if bytes == [] then [] else ByteBits(bytes[0]) + MessageBits(bytes[1..])
  }

  lemma {:induction false} CrcFeeds(g: Word, table: seq<Word>, crc: Word, bytes: seq<byte>)
    requires |g| == |crc| == 32 && TableOk(g, table)
    ensures CrcOf(g, table, crc, bytes) == Feed(g, crc, MessageBits(bytes))
    decreases |bytes|
  {
    if bytes != [] {
      UpdateFeeds(g, table, crc, bytes[0]);
      CrcFeeds(g, table, Update(g, table, crc, bytes[0]), bytes[1..]);
      FeedAppend(g, crc, ByteBits(bytes[0]), MessageBits(bytes[1..]));
    }
  }

  /** By table or by long division, the remainder is the same. */
  lemma CrcIsRemainder(g: Word, table: seq<Word>, bytes: seq<byte>)
    requires |g| == 32 && TableOk(g, table)
    ensures CrcOf(g, table, Zeros(32), bytes) == Divide(g, Zeros(32), MessageBits(bytes) + Zeros(32))
  {
    CrcFeeds(g, table, Zeros(32), bytes);
    ChecksumIsRemainder(g, MessageBits(bytes));
  }

  lemma {:induction false} CrcAppend(g: Word, table: seq<Word>, crc: Word, a: seq<byte>, b: seq<byte>)
    requires |g| == |crc| == 32 && TableOk(g, table)
    ensures CrcOf(g, table, crc, a + b) == CrcOf(g, table, CrcOf(g, table, crc, a), b)
    decreases |a|
  {
    if a == [] {
      assert a + b == b;
    } else {
      assert (a + b)[0] == a[0] && (a + b)[1..] == a[1..] + b;
      CrcAppend(g, table, Update(g, table, crc, a[0]), a[1..], b);
    }
  }

  lemma {:induction false} MessageBitsAppend(a: seq<byte>, b: seq<byte>)
    ensures MessageBits(a + b) == MessageBits(a) + MessageBits(b)
    decreases |a|
  {
    if a == [] {
      assert a + b == b;
    } else {
      assert (a + b)[0] == a[0] && (a + b)[1..] == a[1..] + b;
      MessageBitsAppend(a[1..], b);
    }
  }

  lemma ByteBitsInjective(x: byte, y: byte)
    requires ByteBits(x) == ByteBits(y)
    ensures x == y
  {
    var k, a, b := OCTET, ToBits(x, OCTET), ToBits(y, OCTET);
    assert forall i :: 0 <= i < 8 ==> a[i] == ByteBits(x)[7 - i] && b[i] == ByteBits(y)[7 - i];
    assert a == b;
    Pow2Values();
    FromToBits(x, k);
    FromToBits(y, k);
    LowSmall(x, k);
    LowSmall(y, k);
  }

  lemma {:induction false} MessageBitsInjective(a: seq<byte>, b: seq<byte>)
    requires |a| == |b| && MessageBits(a) == MessageBits(b)
    ensures a == b
    decreases |a|
  {
    if a != [] {
      var x, y := ByteBits(a[0]), ByteBits(b[0]);
      assert x == MessageBits(a)[..8] && y == MessageBits(b)[..8];
      assert MessageBits(a[1..]) == MessageBits(a)[8..] && MessageBits(b[1..]) == MessageBits(b)[8..];
      ByteBitsInjective(a[0], b[0]);
      MessageBitsInjective(a[1..], b[1..]);
      assert a == [a[0]] + a[1..] && b == [b[0]] + b[1..];
    }
  }

  lemma {:induction false} MessageBitsLength(a: seq<byte>)
    ensures |MessageBits(a)| == 8 * |a|
    decreases |a|
  {
    if a != [] { MessageBitsLength(a[1..]); }
  }

  /** Changing up to four adjacent bytes of a message always changes its checksum. */
  lemma {:induction false} DetectsChangedBytes(g: Word, table: seq<Word>, crc: Word, before: seq<byte>, a: seq<byte>,
                                               b: seq<byte>, after: seq<byte>)
    requires |g| == |crc| == 32 && g[0] && TableOk(g, table) && |a| == |b| <= 4 && a != b
    ensures CrcOf(g, table, crc, before + a + after) != CrcOf(g, table, crc, before + b + after)
  {
    CrcOfParts(g, table, crc, before, a, after);
    CrcOfParts(g, table, crc, before, b, after);
    MessageBitsLength(a);
    MessageBitsLength(b);
    if MessageBits(a) == MessageBits(b) { MessageBitsInjective(a, b); }
    DetectsBurst(g, crc, MessageBits(before), MessageBits(a), MessageBits(b), MessageBits(after));
  }

  lemma CrcOfParts(g: Word, table: seq<Word>, crc: Word, before: seq<byte>, a: seq<byte>, after: seq<byte>)
    requires |g| == |crc| == 32 && TableOk(g, table)
    ensures CrcOf(g, table, crc, before + a + after) ==
              Feed(g, crc, MessageBits(before) + MessageBits(a) + MessageBits(after))
  {
    CrcFeeds(g, table, crc, before + a + after);
    MessageBitsAppend(before + a, after);
    MessageBitsAppend(before, a);
  }

  // ----- the checksum of a page -----

  /** The divisor of section 6 of RFC 3533. */
  function Polynomial(): (g: Word)
    ensures |g| == 32
  {
    ToBits(0x04c11db7, 32)
  }

  /** The number that hexadecimal digits spell, least significant first. */
  function HexNumber(digits: seq<nat>): nat {
    if digits == [] then 0 else digits[0] + 16 * HexNumber(digits[1..])
  }

  function Nibble(d: nat): (b: seq<bool>)
    ensures |b| == 4
  {
    [d % 2 == 1, d / 2 % 2 == 1, d / 2 / 2 % 2 == 1, d / 2 / 2 / 2 % 2 == 1]
  }

  function Nibbles(digits: seq<nat>): seq<bool> {
    if digits == [] then [] else Nibble(digits[0]) + Nibbles(digits[1..])
  }

  lemma Halving(d: nat, high: nat)
    ensures (d + 2 * high) / 2 == d / 2 + high && (d + 2 * high) % 2 == d % 2
  {
  }

  lemma OneBit(n: nat, k: nat)
    ensures ToBits(n, k + 1) == [n % 2 == 1] + ToBits(n / 2, k)
  {
  }

  lemma FourBits(n: nat, k: nat)
    ensures ToBits(n, k + 4) == Nibble(n) + ToBits(n / 2 / 2 / 2 / 2, k)
  {
    OneBit(n, k + 3);
    OneBit(n / 2, k + 2);
    OneBit(n / 2 / 2, k + 1);
    OneBit(n / 2 / 2 / 2, k);
    InFront(n % 2 == 1, n / 2 % 2 == 1, n / 2 / 2 % 2 == 1, n / 2 / 2 / 2 % 2 == 1, ToBits(n / 2 / 2 / 2 / 2, k));
  }

  lemma InFront(a: bool, b: bool, c: bool, d: bool, rest: seq<bool>)
    ensures [a] + ([b] + ([c] + ([d] + rest))) == [a, b, c, d] + rest
  {
  }

  lemma NibbleOnTop(digit: nat, high: nat)
    requires digit < 16
    ensures var n := digit + 16 * high; Nibble(n) == Nibble(digit) && n / 2 / 2 / 2 / 2 == high
  {
    var d1 := digit / 2;
    var d2 := d1 / 2;
    var d3 := d2 / 2;
    Halving(digit, 8 * high);
    Halving(d1, 4 * high);
    Halving(d2, 2 * high);
    Halving(d3, high);
    assert d3 / 2 == 0;
  }

  lemma {:induction false} HexBits(digits: seq<nat>)
    requires forall j :: 0 <= j < |digits| ==> digits[j] < 16
    ensures ToBits(HexNumber(digits), 4 * |digits|) == Nibbles(digits)
    decreases |digits|
  {
    if digits != [] {
      var high, k := HexNumber(digits[1..]), 4 * |digits[1..]|;
      HexBits(digits[1..]);
      NibbleOnTop(digits[0], high);
      FourBits(digits[0] + 16 * high, k);
    }
  }

  lemma PolynomialDigits() returns (digits: seq<nat>)
    ensures digits == [7, 11, 13, 1, 1, 12, 4, 0] && HexNumber(digits) == 0x04c11db7
  {
    digits := [7, 11, 13, 1, 1, 12, 4, 0];
    assert digits[4..] == [1, 12, 4, 0] && digits[4..][1..] == [12, 4, 0];
    assert HexNumber([12, 4, 0]) == 0x04c by { assert [12, 4, 0][1..] == [4, 0] && [4, 0][1..] == [0]
                                              && [0][1..] == []; }
    assert HexNumber(digits[4..]) == 0x04c1;
    assert digits[3..][1..] == digits[4..] && HexNumber(digits[3..]) == 0x04c11;
    assert digits[2..][1..] == digits[3..] && HexNumber(digits[2..]) == 0x04c11d;
    assert digits[1..][1..] == digits[2..] && HexNumber(digits[1..]) == 0x04c11db;
  }

  /** The exponents of the divisor below 32. */
  lemma PolynomialExponents(i: nat)
    requires i < 32
    ensures Polynomial()[i] <==> i in {0, 1, 2, 4, 5, 7, 8, 10, 11, 12, 16, 22, 23, 26}
  {
    var digits := PolynomialDigits();
    HexBits(digits);
    ExponentsListed(digits);
  }

  lemma ExponentsListed(digits: seq<nat>)
    requires digits == [7, 11, 13, 1, 1, 12, 4, 0]
    ensures |Nibbles(digits)| == 32
    ensures forall i :: 0 <= i < 32 ==>
              (Nibbles(digits)[i] <==> i in {0, 1, 2, 4, 5, 7, 8, 10, 11, 12, 16, 22, 23, 26})
  {
    NibblesOf(digits);
    NibblesOf(digits[4..]);
    assert digits[4..] == [1, 12, 4, 0] && Nibbles(digits[4..][4..]) == [];
  }

  lemma NibblesOf(digits: seq<nat>)
    requires |digits| >= 4
    ensures Nibbles(digits) ==
              Nibble(digits[0]) + (Nibble(digits[1]) + (Nibble(digits[2]) + (Nibble(digits[3]) + Nibbles(digits[4..]))))
  {
    NibbleFirst(digits, 0);
    NibbleFirst(digits, 1);
    NibbleFirst(digits, 2);
    NibbleFirst(digits, 3);
    assert digits[0..] == digits;
  }

  lemma NibbleFirst(digits: seq<nat>, k: nat)
    requires k < |digits|
    ensures Nibbles(digits[k..]) == Nibble(digits[k]) + Nibbles(digits[k + 1..])
  {
    assert digits[k..][1..] == digits[k + 1..];
  }

  /** It is odd, so every lemma above about lost bits applies to it. */
  lemma PolynomialIsOdd()
    ensures Polynomial()[0]
  {
    assert ToBits(0x04c11db7, 32) == [true] + ToBits(0x04c11db7 / 2, 31);
  }

  /** Reading past the end of the data gives zeros. */
  function ByteAt(s: seq<byte>, i: nat): byte {
    if i < |s| then s[i] else 0
  }

  function BytesFrom(s: seq<byte>, p: nat, k: nat): (r: seq<byte>)
    ensures |r| == k && forall i :: 0 <= i < k ==> r[i] == ByteAt(s, p + i)
  {
    seq<byte>(k, i requires 0 <= i < k => ByteAt(s, p + i))
  }

  /** A page with its checksum field set to zero. */
  function Blank(page: seq<byte>): (r: seq<byte>)
    requires |page| >= 26
    ensures |r| == |page|
  {
    page[..22] + [0, 0, 0, 0] + page[26..]
  }

  function LittleEndian(b: seq<byte>): nat {
    if b == [] then 0 else b[0] + 256 * LittleEndian(b[1..])
  }

  method UpdateAll(g: Word, table: seq<Word>, start: Word, bytes: seq<byte>) returns (crc: Word)
    requires |g| == |start| == 32 && TableOk(g, table)
    ensures |crc| == 32 && crc == CrcOf(g, table, start, bytes)
  {
    crc := start;
    for i := 0 to |bytes|
      invariant |crc| == 32 && crc == CrcOf(g, table, start, bytes[..i])
    {
      CrcNext(g, table, start, bytes[..i], bytes[i]);
      assert bytes[..i + 1] == bytes[..i] + [bytes[i]];
      crc := Update(g, table, crc, bytes[i]);
    }
    assert bytes[..|bytes|] == bytes;
  }

  lemma CrcNext(g: Word, table: seq<Word>, start: Word, bytes: seq<byte>, b: byte)
    requires |g| == |start| == 32 && TableOk(g, table)
    ensures CrcOf(g, table, start, bytes + [b]) == Update(g, table, CrcOf(g, table, start, bytes), b)
  {
    CrcAppend(g, table, start, bytes, [b]);
    var c := Update(g, table, CrcOf(g, table, start, bytes), b);
    assert CrcOf(g, table, c, [b][1..]) == c;
  }

  /** The page of `n` segments and `len` bytes at `p` carries the checksum of its own bytes. */
  ghost predicate ChecksumFits(g: Word, table: seq<Word>, s: seq<byte>, p: nat, n: nat, len: nat)
    requires |g| == 32 && TableOk(g, table)
  {
    var page := BytesFrom(s, p, 27 + n + len);
    FromBits(CrcOf(g, table, Zeros(32), page[..22] + [0, 0, 0, 0] + page[26..])) == LittleEndian(page[22..26])
  }

  /** Whether the page that starts at `p`, of version 0, carries the checksum of its own bytes.
      Data behind a segment table that is cut off is refused; data that is cut off itself is
      read with zeros. */
  method CheckPage(g: Word, table: seq<Word>, s: seq<byte>, p: nat) returns (ok: bool, end: nat)
    requires |g| == 32 && TableOk(g, table) && p + 27 <= |s|
    ensures var n := s[p + 26]; var len := Sum(BytesFrom(s, p + 27, n));
      && end == p + 27 + n + len
      && (ok <==> s[p + 4] == 0 && (len > 0 ==> p + 27 + n <= |s|) && ChecksumFits(g, table, s, p, n, len))
  {
    var n := s[p + 26];
    var len := SumLacing(s, p + 27, n);
    end := p + 27 + n + len;
    if s[p + 4] != 0 || (len > 0 && p + 27 + n > |s|) { return false, end; }
    ok := CompareChecksum(g, table, s, p, n, len);
  }

  method CompareChecksum(g: Word, table: seq<Word>, s: seq<byte>, p: nat, n: nat, len: nat) returns (ok: bool)
    requires |g| == 32 && TableOk(g, table) && p + 27 <= |s|
    ensures ok <==> ChecksumFits(g, table, s, p, n, len)
  {
    var goal := Number(s[p + 22], s[p + 23], s[p + 24], s[p + 25]);
    var crc := PageChecksum(g, table, s, p, n, len);
    GoalIs(s, p, n, len);
    ok := FromBits(crc) == goal;
  }

  method PageChecksum(g: Word, table: seq<Word>, s: seq<byte>, p: nat, n: nat, len: nat) returns (crc: Word)
    requires |g| == 32 && TableOk(g, table) && p + 27 <= |s|
    ensures crc == CrcOf(g, table, Zeros(32), Blank(BytesFrom(s, p, 27 + n + len)))
  {
    var header, lacing, body := Blank(s[p..p + 27]), BytesFrom(s, p + 27, n), BytesFrom(s, p + 27 + n, len);
    PageParts(s, p, n, len);
    crc := PartsChecksum(g, table, header, lacing, body);
  }

  method PartsChecksum(g: Word, table: seq<Word>, header: seq<byte>, lacing: seq<byte>, body: seq<byte>)
    returns (crc: Word)
    requires |g| == 32 && TableOk(g, table)
    ensures crc == CrcOf(g, table, Zeros(32), header + lacing + body)
  {
    crc := UpdateAll(g, table, Zeros(32), header);
    crc := UpdateAll(g, table, crc, lacing);
    crc := UpdateAll(g, table, crc, body);
    CrcAppend(g, table, Zeros(32), header + lacing, body);
    CrcAppend(g, table, Zeros(32), header, lacing);
  }

  method SumLacing(s: seq<byte>, p: nat, n: nat) returns (len: nat)
    ensures len == Sum(BytesFrom(s, p, n))
  {
    len := 0;
    for i := 0 to n
      invariant len == Sum(BytesFrom(s, p, i))
    {
      var b := ByteAt(s, p + i);
      assert BytesFrom(s, p, i + 1) == BytesFrom(s, p, i) + [b];
      SumAppend(BytesFrom(s, p, i), [b]);
      assert Sum([b]) == b;
      len := len + b;
    }
  }

  lemma PageParts(s: seq<byte>, p: nat, n: nat, len: nat)
    requires p + 27 <= |s|
    ensures Blank(BytesFrom(s, p, 27 + n + len)) ==
              Blank(s[p..p + 27]) + BytesFrom(s, p + 27, n) + BytesFrom(s, p + 27 + n, len)
  {
    var page, header := BytesFrom(s, p, 27 + n + len), s[p..p + 27];
    assert page == header + BytesFrom(s, p + 27, n) + BytesFrom(s, p + 27 + n, len);
  }

  lemma GoalIs(s: seq<byte>, p: nat, n: nat, len: nat)
    requires p + 27 <= |s|
    ensures LittleEndian(BytesFrom(s, p, 27 + n + len)[22..26]) == Number(s[p + 22], s[p + 23], s[p + 24], s[p + 25])
  {
    var f := BytesFrom(s, p, 27 + n + len)[22..26];
    assert f == [s[p + 22], s[p + 23], s[p + 24], s[p + 25]];
    FourBytes(f);
  }

  lemma FourBytes(f: seq<byte>)
    requires |f| == 4
    ensures LittleEndian(f) == Number(f[0], f[1], f[2], f[3])
  {
    var f1 := f[1..];
    var f2 := f1[1..];
    var f3 := f2[1..];
    assert f3[1..] == [] && f1[0] == f[1] && f2[0] == f[2] && f3[0] == f[3];
    assert LittleEndian(f3) == f[3];
    assert LittleEndian(f2) == f[2] + 256 * LittleEndian(f3);
    assert LittleEndian(f1) == f[1] + 256 * LittleEndian(f2);
  }
}
