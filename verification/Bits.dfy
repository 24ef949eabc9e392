/** Unsigned machine words as numbers.  Shifts and masks are defined bit by bit, so that
    every fact about them is an induction over the shift amount. */
module Bits {

  const WORD: nat := 0x1_0000_0000
  const OCTET: nat := 8

  /** n << k, without a word size. */
  function Shl(n: nat, k: nat): nat {
    if k == 0 then n else 2 * Shl(n, k - 1)
  }

  /** n >> k. */
  function Shr(n: nat, k: nat): nat {
    if k == 0 then n else Shr(n / 2, k - 1)
  }

  /** n & ((1 << k) - 1). */
  function Low(n: nat, k: nat): nat {
    if k == 0 then 0 else n % 2 + 2 * Low(n / 2, k - 1)
  }

  /** 1 << k. */
  function Pow2(k: nat): (p: nat)
    ensures p > 0
  {
    if k == 0 then 1 else 2 * Pow2(k - 1)
  }

  lemma {:induction false} Pow2IsShl(k: nat)
    ensures Pow2(k) == Shl(1, k)
  {
    if k > 0 { Pow2IsShl(k - 1); }
  }

  lemma {:induction false} Pow2Monotone(a: nat, b: nat)
    requires a < b
    ensures 2 * Pow2(a) <= Pow2(b)
  {
    if a + 1 < b { Pow2Monotone(a, b - 1); }
  }

  lemma Pow2Values()
    ensures Pow2(8) == 256 && Pow2(10) == 1024 && Pow2(24) == 0x100_0000 && Pow2(32) == WORD
  {
    assert Pow2(4) == 16;
    assert Pow2(8) == 256;
    assert Pow2(12) == 4096;
    assert Pow2(16) == 0x1_0000;
    assert Pow2(20) == 0x10_0000;
    assert Pow2(24) == 0x100_0000;
    assert Pow2(28) == 0x1000_0000;
  }

  lemma {:induction false} ShlAdd(a: nat, b: nat, k: nat)
    ensures Shl(a + b, k) == Shl(a, k) + Shl(b, k)
  {
    if k > 0 { ShlAdd(a, b, k - 1); }
  }

  lemma {:induction false} ShlShl(n: nat, j: nat, k: nat)
    ensures Shl(Shl(n, j), k) == Shl(n, j + k)
  {
    if k > 0 { ShlShl(n, j, k - 1); }
  }

  lemma {:induction false} ShlZero(k: nat)
    ensures Shl(0, k) == 0
  {
    if k > 0 { ShlZero(k - 1); }
  }

  lemma {:induction false} ShlGrows(n: nat, m: nat, k: nat)
    requires n < m
    ensures Shl(n, k) + Pow2(k) <= Shl(m, k)
  {
    if k > 0 { ShlGrows(n, m, k - 1); }
  }

  /** A number is its high part and its low part. */
  lemma {:induction false} SplitAt(n: nat, k: nat)
    ensures n == Shl(Shr(n, k), k) + Low(n, k) && Low(n, k) < Pow2(k)
  {
    if k > 0 { SplitAt(n / 2, k - 1); }
  }

  /** The parts of a number put together from parts. */
  lemma {:induction false} PartsOf(q: nat, r: nat, k: nat)
    requires r < Pow2(k)
    ensures Shr(Shl(q, k) + r, k) == q && Low(Shl(q, k) + r, k) == r
  {
    if k > 0 {
      PartsOf(q, r / 2, k - 1);
      assert (Shl(q, k) + r) / 2 == Shl(q, k - 1) + r / 2;
      assert (Shl(q, k) + r) % 2 == r % 2;
    }
  }

  lemma {:induction false} LowSmall(n: nat, k: nat)
    requires n < Pow2(k)
    ensures Low(n, k) == n && Shr(n, k) == 0
  {
    if k > 0 { LowSmall(n / 2, k - 1); }
  }

  lemma {:induction false} LowLow(n: nat, j: nat, k: nat)
    requires k <= j
    ensures Low(Low(n, j), k) == Low(n, k)
  {
    if k > 0 {
      assert Low(n, j) / 2 == Low(n / 2, j - 1) && Low(n, j) % 2 == n % 2;
      LowLow(n / 2, j - 1, k - 1);
    }
  }

  lemma {:induction false} ShrShr(n: nat, j: nat, k: nat)
    ensures Shr(Shr(n, j), k) == Shr(n, j + k)
  {
    if j > 0 { ShrShr(n / 2, j - 1, k); }
  }

  lemma {:induction false} ShrBound(n: nat, j: nat, k: nat)
    requires n < Pow2(j + k)
    ensures Shr(n, j) < Pow2(k)
  {
    if j > 0 { ShrBound(n / 2, j - 1, k); }
  }

  /** Adding below the alignment of `n` only changes the low part. */
  lemma LowAligned(n: nat, r: nat, k: nat)
    requires Low(n, k) == 0 && r < Pow2(k)
    ensures Low(n + r, k) == r && Shr(n + r, k) == Shr(n, k)
  {
    SplitAt(n, k);
    PartsOf(Shr(n, k), r, k);
  }

  // ----- bits, least significant first -----

  function ToBits(n: nat, k: nat): (b: seq<bool>)
    ensures |b| == k
  {
    if k == 0 then [] else [n % 2 == 1] + ToBits(n / 2, k - 1)
  }

  function FromBits(b: seq<bool>): (n: nat)
    ensures n < Pow2(|b|)
  {
    if b == [] then 0 else (if b[0] then 1 else 0) + 2 * FromBits(b[1..])
  }

  lemma {:induction false} FromToBits(n: nat, k: nat)
    ensures FromBits(ToBits(n, k)) == Low(n, k)
  {
    if k > 0 {
      assert ToBits(n, k)[1..] == ToBits(n / 2, k - 1);
      FromToBits(n / 2, k - 1);
    }
  }

  lemma {:induction false} ToFromBits(b: seq<bool>)
    ensures ToBits(FromBits(b), |b|) == b
  {
    if b != [] {
      var n := FromBits(b);
      assert n / 2 == FromBits(b[1..]) && (n % 2 == 1) == b[0];
      ToFromBits(b[1..]);
    }
  }

  lemma {:induction false} ToBitsSplit(n: nat, j: nat, k: nat)
    ensures ToBits(n, j + k) == ToBits(n, j) + ToBits(Shr(n, j), k)
  {
    if j > 0 {
      ToBitsSplit(n / 2, j - 1, k);
      assert ToBits(n, j + k) == [n % 2 == 1] + ToBits(n / 2, j - 1 + k);
    }
  }

  lemma {:induction false} ToBitsLow(n: nat, j: nat, k: nat)
    requires k <= j
    ensures ToBits(Low(n, j), k) == ToBits(n, k)
  {
    if k > 0 {
      assert Low(n, j) / 2 == Low(n / 2, j - 1) && Low(n, j) % 2 == n % 2;
      ToBitsLow(n / 2, j - 1, k - 1);
    }
  }

  lemma {:induction false} FromBitsAppend(a: seq<bool>, b: seq<bool>)
    ensures FromBits(a + b) == FromBits(a) + Shl(FromBits(b), |a|)
  {
    if a == [] {
      assert a + b == b;
    } else {
      assert (a + b)[1..] == a[1..] + b;
      FromBitsAppend(a[1..], b);
    }
  }

  // ----- reversal -----

  /** The low `k` bits of `n` in the opposite order. */
  function Reverse(n: nat, k: nat): nat {
    if k == 0 then 0 else Shl(n % 2, k - 1) + Reverse(n / 2, k - 1)
  }

  lemma {:induction false} ReverseBound(n: nat, k: nat)
    ensures Reverse(n, k) < Pow2(k)
  {
    if k > 0 {
      ReverseBound(n / 2, k - 1);
      ShlZero(k - 1);
      Pow2IsShl(k - 1);
    }
  }

  lemma {:induction false} ReverseZero(k: nat)
    ensures Reverse(0, k) == 0
  {
    if k > 0 {
      ReverseZero(k - 1);
      ShlZero(k - 1);
    }
  }

  lemma {:induction false} ReverseSplit(n: nat, j: nat, k: nat)
    ensures Reverse(n, j + k) == Shl(Reverse(n, j), k) + Reverse(Shr(n, j), k)
  {
    if j == 0 {
      ShlZero(k);
    } else {
      ReverseSplit(n / 2, j - 1, k);
      ShlAdd(Shl(n % 2, j - 1), Reverse(n / 2, j - 1), k);
      ShlShl(n % 2, j - 1, k);
    }
  }

  lemma {:induction false} ReverseLow(n: nat, j: nat, k: nat)
    requires k <= j
    ensures Reverse(Low(n, j), k) == Reverse(n, k)
  {
    if k > 0 {
      assert Low(n, j) / 2 == Low(n / 2, j - 1) && Low(n, j) % 2 == n % 2;
      ReverseLow(n / 2, j - 1, k - 1);
    }
  }

  lemma {:induction false} ReverseInvolution(n: nat, k: nat)
    ensures Reverse(Reverse(n, k), k) == Low(n, k)
  {
    if k > 0 {
      ReverseBound(n / 2, k - 1);
      ReverseSnoc(Reverse(n / 2, k - 1), n % 2, k - 1);
      ReverseInvolution(n / 2, k - 1);
    }
  }

  lemma ReverseSnoc(m: nat, c: nat, k: nat)
    requires m < Pow2(k) && c < 2
    ensures Reverse(Shl(c, k) + m, k + 1) == 2 * Reverse(m, k) + c
  {
    var r := Shl(c, k) + m;
    PartsOf(c, m, k);
    ReverseSplit(r, k, 1);
    ReverseLow(r, k, k);
    assert Reverse(c, 1) == c;
    assert Shl(Reverse(r, k), 1) == 2 * Reverse(r, k);
  }

  function Flip(b: seq<bool>): (r: seq<bool>)
    ensures |r| == |b|
    ensures forall i :: 0 <= i < |b| ==> r[i] == b[|b| - 1 - i]
  {
    if b == [] then [] else Flip(b[1..]) + [b[0]]
  }

  lemma {:induction false} ReverseFlips(n: nat, k: nat)
    ensures Reverse(n, k) == FromBits(Flip(ToBits(n, k)))
  {
    if k > 0 {
      var b := ToBits(n, k);
      assert b[1..] == ToBits(n / 2, k - 1);
      ReverseFlips(n / 2, k - 1);
      FromBitsAppend(Flip(b[1..]), [b[0]]);
      assert FromBits([b[0]]) == n % 2 by { assert [b[0]][1..] == []; }
    }
  }

  // ----- the mask-and-shift network -----

  predicate IsStride(s: nat) { s == 1 || s == 2 || s == 4 || s == 8 || s == 16 }

  /** The bits of 0xAAAAAAAA, 0xCCCCCCCC, 0xF0F0F0F0, 0xFF00FF00 and 0xFFFF0000. */
  predicate InMask(stride: nat, i: nat)
    requires IsStride(stride)
  {
    if stride == 1 then i % 2 == 1
    else if stride == 2 then i % 4 >= 2
    else if stride == 4 then i % 8 >= 4
    else if stride == 8 then i % 16 >= 8
    else i % 32 >= 16
  }

  /** One line of the network: bits under the mask go down by `stride`, the others go up. */
  function SwapStep(b: seq<bool>, stride: nat): (r: seq<bool>)
    requires |b| == 32 && IsStride(stride)
    ensures |r| == 32
  {
    seq(32, i requires 0 <= i < 32 =>
      (i + stride < 32 && b[i + stride] && InMask(stride, i + stride))
        || (i >= stride && b[i - stride] && !InMask(stride, i - stride)))
  }

  function BitReverse(n: nat): nat
    requires n < WORD
  {
    FromBits(Network(ToBits(n, 32)))
  }

  /** All five lines. */
  function Network(b: seq<bool>): (r: seq<bool>)
    requires |b| == 32
    ensures |r| == 32
  {
    SwapStep(SwapStep(SwapStep(SwapStep(SwapStep(b, 1), 2), 4), 8), 16)
  }

  function Partner(i: nat, stride: nat): int
    requires IsStride(stride)
  {
    if InMask(stride, i) then i - stride else i + stride
  }

  lemma MaskPairs1(i: nat)
    requires i < 32
    ensures InMask(1, i) <==> i >= 1 && !InMask(1, i - 1)
    ensures !InMask(1, i) <==> i + 1 < 32 && InMask(1, i + 1)
  {
  }

  lemma MaskPairs2(i: nat)
    requires i < 32
    ensures InMask(2, i) <==> i >= 2 && !InMask(2, i - 2)
    ensures !InMask(2, i) <==> i + 2 < 32 && InMask(2, i + 2)
  {
  }

  lemma {:induction false} MaskPairs4(i: nat)
    requires i < 32
    ensures InMask(4, i) <==> i >= 4 && !InMask(4, i - 4)
    ensures !InMask(4, i) <==> i + 4 < 32 && InMask(4, i + 4)
  {
  }

  lemma MaskPairs8(i: nat)
    requires i < 32
    ensures InMask(8, i) <==> i >= 8 && !InMask(8, i - 8)
    ensures !InMask(8, i) <==> i + 8 < 32 && InMask(8, i + 8)
  {
  }

  lemma MaskPairs16(i: nat)
    requires i < 32
    ensures InMask(16, i) <==> i >= 16 && !InMask(16, i - 16)
    ensures !InMask(16, i) <==> i + 16 < 32 && InMask(16, i + 16)
  {
  }

  lemma MaskPairs(stride: nat, i: nat)
    requires i < 32 && IsStride(stride)
    ensures InMask(stride, i) <==> i >= stride && !InMask(stride, i - stride)
    ensures !InMask(stride, i) <==> i + stride < 32 && InMask(stride, i + stride)
  {
    match stride
    case 1 => MaskPairs1(i);
    case 2 => MaskPairs2(i);
    case 4 => MaskPairs4(i);
    case 8 => MaskPairs8(i);
    case _ => MaskPairs16(i);
  }

  lemma SwapStepBit(b: seq<bool>, stride: nat, i: nat)
    requires |b| == 32 && i < 32 && IsStride(stride)
    ensures 0 <= Partner(i, stride) < 32
    ensures SwapStep(b, stride)[i] == b[Partner(i, stride)]
  {
    MaskPairs(stride, i);
  }

  // Mirroring within blocks of four, eight and sixteen, one stride at a time.
  lemma Mirror4(i: nat)
    requires i < 32 && Partner(i, 2) >= 0
    ensures Partner(Partner(i, 2), 1) == i - i % 4 + 3 - i % 4
  {
  }

  lemma Mirror8(i: nat)
    requires i < 32
    ensures var j := Partner(i, 4); 0 <= j < 32 && j - j % 4 + 3 - j % 4 == i - i % 8 + 7 - i % 8
  {
  }

  lemma Mirror16(i: nat)
    requires i < 32
    ensures var j := Partner(i, 8); 0 <= j < 32 && j - j % 8 + 7 - j % 8 == i - i % 16 + 15 - i % 16
  {
  }

  lemma Mirror32(i: nat)
    requires i < 32
    ensures var j := Partner(i, 16); 0 <= j < 32 && j - j % 16 + 15 - j % 16 == 31 - i
  {
  }

  /** The bits of `r` are those of `b`, each from its partner's place. */
  predicate Swapped(b: seq<bool>, r: seq<bool>, stride: nat)
    requires IsStride(stride)
  {
    |b| == |r| == 32 && forall i :: 0 <= i < 32 ==> 0 <= Partner(i, stride) < 32 && r[i] == b[Partner(i, stride)]
  }

  lemma StepSwaps(b: seq<bool>, stride: nat)
    requires |b| == 32 && IsStride(stride)
    ensures Swapped(b, SwapStep(b, stride), stride)
  {
    forall i | 0 <= i < 32 ensures 0 <= Partner(i, stride) < 32 && SwapStep(b, stride)[i] == b[Partner(i, stride)] {
      SwapStepBit(b, stride, i);
    }
  }

  lemma FiveSwaps(b0: seq<bool>, b1: seq<bool>, b2: seq<bool>, b3: seq<bool>, b4: seq<bool>, b5: seq<bool>, i: nat)
    requires Swapped(b0, b1, 1) && Swapped(b1, b2, 2) && Swapped(b2, b3, 4) && Swapped(b3, b4, 8)
    requires Swapped(b4, b5, 16) && i < 32
    ensures b5[i] == b0[31 - i]
  {
    var i4 := Partner(i, 16);
    var i3 := Partner(i4, 8);
    var i2 := Partner(i3, 4);
    var i1 := Partner(i2, 2);
    Mirror32(i);
    Mirror16(i4);
    Mirror8(i3);
    Mirror4(i2);
    assert b5[i] == b4[i4] == b3[i3] == b2[i2] == b1[i1] == b0[Partner(i1, 1)];
  }

  lemma NetworkFlips(b0: seq<bool>)
    requires |b0| == 32
    ensures Network(b0) == Flip(b0)
  {
    var b1 := SwapStep(b0, 1);
    var b2 := SwapStep(b1, 2);
    var b3 := SwapStep(b2, 4);
    var b4 := SwapStep(b3, 8);
    StepSwaps(b0, 1);
    StepSwaps(b1, 2);
    StepSwaps(b2, 4);
    StepSwaps(b3, 8);
    StepSwaps(b4, 16);
    SwapsFlip(b0, b1, b2, b3, b4, SwapStep(b4, 16));
  }

  lemma SwapsFlip(b0: seq<bool>, b1: seq<bool>, b2: seq<bool>, b3: seq<bool>, b4: seq<bool>, b5: seq<bool>)
    requires Swapped(b0, b1, 1) && Swapped(b1, b2, 2) && Swapped(b2, b3, 4) && Swapped(b3, b4, 8) && Swapped(b4, b5, 16)
    ensures b5 == Flip(b0)
  {
    forall i | 0 <= i < 32 ensures b5[i] == b0[31 - i] { FiveSwaps(b0, b1, b2, b3, b4, b5, i); }
    IsFlipped(b0, b5);
  }

  lemma IsFlipped(b: seq<bool>, r: seq<bool>)
    requires |r| == |b| && forall i :: 0 <= i < |b| ==> r[i] == b[|b| - 1 - i]
    ensures r == Flip(b)
  {
  }

  /** The network of masks and shifts reverses a word. */
  lemma BitReverseReverses(n: nat)
    requires n < WORD
    ensures BitReverse(n) == Reverse(n, 32)
  {
    NetworkFlips(ToBits(n, 32));
    ReverseFlips(n, 32);
  }
}
