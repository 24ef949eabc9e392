/** Where the windows of successive frames overlap, how they are mixed, and how many samples
    come out. */
module Windowing {
  import opened Options

  /** Blocks are powers of two from 64 to 8192; all that matters is that they have quarters. */
  predicate IsBlockSize(n: nat) {
    64 <= n <= 8192 && n % 4 == 0
  }

  datatype Sizes = Sizes(small: nat, large: nat) {
    predicate Ok() { IsBlockSize(small) && IsBlockSize(large) && small <= large }
  }

  /** A frame's block flag, and what a long frame says about the frames next to it. */
  datatype Frame = Frame(long: bool, prev: bool, next: bool) {
    function Size(z: Sizes): nat { if long then z.large else z.small }

    function LeftStart(z: Sizes): int {
      if long && !prev then (z.large - z.small) / 4 else 0
    }

    function LeftEnd(z: Sizes): int {
      if long && !prev then (z.large + z.small) / 4 else Size(z) / 2
    }

    function RightStart(z: Sizes): int {
      if long && !next then (z.large * 3 - z.small) / 4 else Size(z) / 2
    }

    function RightEnd(z: Sizes): int {
      if long && !next then (z.large * 3 + z.small) / 4 else Size(z)
    }
  }

  /** What long frames say about their neighbours is true. */
  predicate Consistent(frames: seq<Frame>) {
    forall i, j :: 0 <= i && j == i + 1 < |frames| ==> Fits(frames[i], frames[j])
  }

  predicate Fits(a: Frame, b: Frame) {
    (a.long ==> a.next == b.long) && (b.long ==> b.prev == a.long)
  }

  /** The block sizes as multiples of four. */
  lemma Quarters(z: Sizes) returns (s: nat, l: nat)
    requires z.Ok()
    ensures 16 <= s <= l && z.small == 4 * s && z.large == 4 * l
  {
    s, l := z.small / 4, z.large / 4;
  }

  lemma QuarterOf(n: int)
    ensures (4 * n) / 4 == n && (4 * n) / 2 == 2 * n
  {
  }

  /** The regions of a frame in quarters of the blocks. */
  lemma Regions(z: Sizes, f: Frame, s: nat, l: nat, x: nat)
    requires z.small == 4 * s && z.large == 4 * l && x == if f.long then l else s
    ensures f.LeftStart(z) == (if f.long && !f.prev then l - s else 0)
    ensures f.LeftEnd(z) == (if f.long && !f.prev then l + s else 2 * x)
    ensures f.RightStart(z) == (if f.long && !f.next then 3 * l - s else 2 * x)
    ensures f.RightEnd(z) == (if f.long && !f.next then 3 * l + s else 4 * x)
    ensures f.Size(z) == 4 * x && f.Size(z) / 2 == 2 * x
  {
    QuarterOf(l - s);
    QuarterOf(l + s);
    QuarterOf(3 * l - s);
    QuarterOf(3 * l + s);
    QuarterOf(x);
  }

  /** The regions of a frame are in order and inside the block. */
  lemma RegionsInOrder(z: Sizes, f: Frame)
    requires z.Ok()
    ensures 0 <= f.LeftStart(z) < f.LeftEnd(z) <= f.RightStart(z) < f.RightEnd(z) <= f.Size(z)
  {
    var s, l := Quarters(z);
    Regions(z, f, s, l, if f.long then l else s);
  }

  /** A frame's right overlap is as long as the next frame's left overlap, and there is a
      window of that length. */
  lemma OverlapsAgree(z: Sizes, a: Frame, b: Frame)
    requires z.Ok() && Fits(a, b)
    ensures a.RightEnd(z) - a.RightStart(z) == b.LeftEnd(z) - b.LeftStart(z)
    ensures WindowOf(z, a.RightEnd(z) - a.RightStart(z)).Some?
  {
    var s, l := Quarters(z);
    Regions(z, a, s, l, if a.long then l else s);
    Regions(z, b, s, l, if b.long then l else s);
  }

  /** The block size whose window has the given half. */
  function WindowOf(z: Sizes, len: int): Option<bool> {
    if 2 * len == z.small then Some(false) else if 2 * len == z.large then Some(true) else None
  }

  // ----- counting samples -----

  /** How far the right overlap starts after the middle of the block. */
  function Lead(z: Sizes, f: Frame): int {
    f.RightStart(z) - f.Size(z) / 2
  }

  /** One frame: section 4.3.8 of the Vorbis I specification asks for a quarter of the
      previous and a quarter of the current block; the difference is only in where the
      overlap is counted. */
  lemma FrameSamples(z: Sizes, a: Frame, b: Frame)
    requires z.Ok() && Fits(a, b)
    ensures b.RightStart(z) - b.LeftStart(z) == (a.Size(z) + b.Size(z)) / 4 + Lead(z, b) - Lead(z, a)
  {
    var s, l := Quarters(z);
    var x, y := if a.long then l else s, if b.long then l else s;
    Regions(z, a, s, l, x);
    Regions(z, b, s, l, y);
    QuarterOf(x + y);
  }

  lemma LeadBound(z: Sizes, f: Frame)
    requires z.Ok()
    ensures 0 <= Lead(z, f) <= (z.large - z.small) / 4
  {
    var s, l := Quarters(z);
    Regions(z, f, s, l, if f.long then l else s);
    QuarterOf(l - s);
  }

  function Counted(z: Sizes, frames: seq<Frame>): int {
    if |frames| < 2 then 0
    else var last := frames[|frames| - 1]; Counted(z, frames[..|frames| - 1]) + last.RightStart(z) - last.LeftStart(z)
  }

  function Specified(z: Sizes, frames: seq<Frame>): int {
    if |frames| < 2 then 0
    else Specified(z, frames[..|frames| - 1]) + (frames[|frames| - 2].Size(z) + frames[|frames| - 1].Size(z)) / 4
  }

  /** A whole run: the specified number of samples, up to the lead at its two ends. */
  lemma {:induction false} RunSamples(z: Sizes, frames: seq<Frame>)
    requires z.Ok() && Consistent(frames) && frames != []
    ensures Counted(z, frames) == Specified(z, frames) + Lead(z, frames[|frames| - 1]) - Lead(z, frames[0])
    ensures -(z.large - z.small) / 4 <= Counted(z, frames) - Specified(z, frames) <= (z.large - z.small) / 4
  {
    var m := |frames| - 1;
    if m > 0 {
      RunSamples(z, frames[..m]);
      FrameSamples(z, frames[m - 1], frames[m]);
    }
    LeadBound(z, frames[m]);
    LeadBound(z, frames[0]);
    NegatedQuarter(z);
  }

  lemma NegatedQuarter(z: Sizes)
    requires z.Ok()
    ensures -(z.large - z.small) / 4 == -((z.large - z.small) / 4)
  {
    var s, l := Quarters(z);
    var k: int := l - s;
    QuarterOf(k);
    QuarterOf(-k);
  }

  // ----- mixing -----

  /** The halves of the two windows, and how a new and an old sample are mixed with them. */
  datatype Windows<!V> = Windows(small: seq<V>, large: seq<V>, mix: (V, V, V, V) -> V) {
    predicate Ok(z: Sizes) { |small| == z.small / 2 && |large| == z.large / 2 }

    function Get(z: Sizes, len: int): Option<seq<V>> {
      match WindowOf(z, len) case None => None case Some(long) => Some(if long then large else small)
    }
  }

  /** A block whose part from `left` on is mixed with what the block before left over. */
  function Mixed<V>(block: seq<V>, rest: seq<V>, left: nat, w: seq<V>, mix: (V, V, V, V) -> V): (r: seq<V>)
    requires |w| == |rest|
    ensures |r| == |block|
  {
    var n := |rest|;
    seq(|block|, i requires 0 <= i < |block| =>
      if left <= i < left + n then mix(block[i], rest[i - left], w[i - left], w[n - 1 - (i - left)]) else block[i])
  }

  class Mixer<V> {
    const z: Sizes
    const windows: Windows<V>
    const previousWindow: array<V>
    var previousLength: int
    var samplesOutput: int

    ghost predicate Valid()
      reads this
    {
      z.Ok() && windows.Ok(z) && previousWindow.Length == z.large / 2
    }

    constructor (sizes: Sizes, w: Windows<V>, buffer: array<V>)
      requires sizes.Ok() && w.Ok(sizes) && buffer.Length == sizes.large / 2
      ensures Valid() && z == sizes && windows == w && previousWindow == buffer && previousLength == 0
      ensures samplesOutput == 0
    {
      z, windows, previousWindow := sizes, w, buffer;
      previousLength, samplesOutput := 0, 0;
    }

    /** Mixes the frame with what the one before left over, saves what it leaves over itself,
        and says how many samples from `left` on are ready. */
    method FinishFrame(buffer: array<V>, len: int, left: nat, right: nat) returns (ready: int)
      requires Valid() && buffer != previousWindow && len <= buffer.Length && len - right <= previousWindow.Length
      requires left + previousLength <= buffer.Length
      modifies this`previousLength, this`samplesOutput, buffer, previousWindow
      ensures Valid()
      ensures var n := old(previousLength); var w := windows.Get(z, n); var block := old(buffer[..]);
        if n != 0 && w.None? then ready == 0 && previousLength == n && buffer[..] == block
          && samplesOutput == old(samplesOutput)
        else
          && previousLength == len - right && samplesOutput == old(samplesOutput) + ready
          && ready == (if n == 0 then 0 else (if len < right then len else right) - left)
          && buffer[..] ==
               (if n == 0 then block else Mixed(block, old(previousWindow[..])[..n], left, w.value, windows.mix))
          && (right <= len ==> previousWindow[..len - right] == buffer[right..len])
    {
      ready := 0;
      if previousLength != 0 {
        var w := windows.Get(z, previousLength);
        if w.None? { return; }
        MixIn(buffer, left, w.value);
      }
      var prev := previousLength;
      previousLength := len - right;
      SaveRest(buffer, len, right);
      if prev == 0 { return; }
      ready := (if len < right then len else right) - left;
      samplesOutput := samplesOutput + ready;
    }

    method MixIn(buffer: array<V>, left: nat, w: seq<V>)
      requires Valid() && buffer != previousWindow && 0 <= previousLength == |w| <= previousWindow.Length
      requires left + previousLength <= buffer.Length
      modifies buffer
      ensures buffer[..] == Mixed(old(buffer[..]), previousWindow[..previousLength], left, w, windows.mix)
    {
      var n := previousLength;
      for j := 0 to n
        invariant forall i :: 0 <= i < buffer.Length ==>
          buffer[i] ==
            if left <= i < left + j
            then windows.mix(old(buffer[i]), previousWindow[i - left], w[i - left], w[n - 1 - (i - left)])
            else old(buffer[i])
      {
        buffer[left + j] := windows.mix(buffer[left + j], previousWindow[j], w[j], w[n - 1 - j]);
      }
    }

    method SaveRest(buffer: array<V>, len: int, right: nat)
      requires Valid() && buffer != previousWindow && len <= buffer.Length && len - right <= previousWindow.Length
      modifies previousWindow
      ensures right <= len ==> previousWindow[..len - right] == buffer[right..len]
    {
      var j := 0;
      while right + j < len
        invariant 0 <= j && (right <= len ==> j <= len - right) && (right > len ==> j == 0)
        invariant forall i :: 0 <= i < j ==> previousWindow[i] == buffer[right + i]
      {
        previousWindow[j] := buffer[right + j];
        j := j + 1;
      }
    }
  }

  // ----- whole runs -----

  /** One decoded block per frame. */
  predicate BlocksOk<V>(z: Sizes, frames: seq<Frame>, blocks: seq<seq<V>>) {
    |blocks| == |frames| && forall i :: 0 <= i < |frames| ==> |blocks[i]| == frames[i].Size(z)
  }

  /** What the window leaves over of a block for the next one. */
  function LeftOver<V>(z: Sizes, f: Frame, block: seq<V>): (r: seq<V>)
    requires z.Ok() && |block| == f.Size(z)
    ensures |r| == f.RightEnd(z) - f.RightStart(z)
  {
    RegionsInOrder(z, f);
    block[f.RightStart(z)..f.RightEnd(z)]
  }

  /** The samples that come out between the overlaps of two successive frames. */
  function Lapped<V>(z: Sizes, w: Windows<V>, a: Frame, blockA: seq<V>, b: Frame, blockB: seq<V>): (r: seq<V>)
    requires z.Ok() && w.Ok(z) && Fits(a, b) && |blockA| == a.Size(z) && |blockB| == b.Size(z)
    ensures |r| == b.RightStart(z) - b.LeftStart(z)
  {
    RegionsInOrder(z, b);
    OverlapsAgree(z, a, b);
    var rest := LeftOver(z, a, blockA);
    Mixed(blockB, rest, b.LeftStart(z), w.Get(z, |rest|).value, w.mix)[b.LeftStart(z)..b.RightStart(z)]
  }

  function RunOutput<V>(z: Sizes, w: Windows<V>, frames: seq<Frame>, blocks: seq<seq<V>>, n: nat): (r: seq<V>)
    requires z.Ok() && w.Ok(z) && Consistent(frames) && BlocksOk(z, frames, blocks) && n <= |frames|
  {
    if n < 2 then []
    else
      var last := Lapped(z, w, frames[n - 2], blocks[n - 2], frames[n - 1], blocks[n - 1]);
      RunOutput(z, w, frames, blocks, n - 1) + last
  }

  lemma {:induction false} OutputCounted<V>(z: Sizes, w: Windows<V>, frames: seq<Frame>, blocks: seq<seq<V>>, n: nat)
    requires z.Ok() && w.Ok(z) && Consistent(frames) && BlocksOk(z, frames, blocks) && n <= |frames|
    ensures |RunOutput(z, w, frames, blocks, n)| == Counted(z, frames[..n])
  {
    if n >= 2 {
      OutputCounted(z, w, frames, blocks, n - 1);
      assert frames[..n][..n - 1] == frames[..n - 1];
    }
  }

  /** Mixing does not touch what is left over, and what comes out depends on the block only. */
  lemma {:induction false} MixedParts<V>(z: Sizes, w: Windows<V>, a: Frame, blockA: seq<V>, b: Frame, blockB: seq<V>,
                                         buffer: seq<V>)
    requires z.Ok() && w.Ok(z) && Fits(a, b) && |blockA| == a.Size(z) && |blockB| == b.Size(z) <= |buffer|
    requires buffer[..|blockB|] == blockB
    ensures var rest := LeftOver(z, a, blockA); var win := w.Get(z, |rest|);
      && win.Some? && |win.value| == |rest| && 0 <= b.LeftStart(z) <= b.RightStart(z) <= b.RightEnd(z) <= |buffer|
      && var mixed := Mixed(buffer, rest, b.LeftStart(z), win.value, w.mix);
         && mixed[b.LeftStart(z)..b.RightStart(z)] == Lapped(z, w, a, blockA, b, blockB)
         && mixed[b.RightStart(z)..b.RightEnd(z)] == LeftOver(z, b, blockB)
  {
    RegionsInOrder(z, b);
    OverlapsAgree(z, a, b);
    var rest := LeftOver(z, a, blockA);
    var win := w.Get(z, |rest|).value;
    var left, right, end := b.LeftStart(z), b.RightStart(z), b.RightEnd(z);
    MixedPrefix(buffer, blockB, rest, left, win, w.mix, left, right);
    MixedPrefix(buffer, blockB, rest, left, win, w.mix, right, end);
    MixedBeyond(blockB, rest, left, win, w.mix, right, end);
  }

  lemma MixedPrefix<V>(buffer: seq<V>, block: seq<V>, rest: seq<V>, left: nat, w: seq<V>, mix: (V, V, V, V) -> V,
                       lo: nat, hi: nat)
    requires |w| == |rest| && lo <= hi <= |block| <= |buffer| && buffer[..|block|] == block
    ensures Mixed(buffer, rest, left, w, mix)[lo..hi] == Mixed(block, rest, left, w, mix)[lo..hi]
  {
    assert forall i :: 0 <= i < |block| ==> buffer[i] == buffer[..|block|][i];
    assert forall i :: lo <= i < hi ==> Mixed(buffer, rest, left, w, mix)[i] == Mixed(block, rest, left, w, mix)[i];
  }

  lemma MixedBeyond<V>(block: seq<V>, rest: seq<V>, left: nat, w: seq<V>, mix: (V, V, V, V) -> V, lo: nat, hi: nat)
    requires |w| == |rest| && left + |rest| <= lo <= hi <= |block|
    ensures Mixed(block, rest, left, w, mix)[lo..hi] == block[lo..hi]
  {
    assert forall i :: lo <= i < hi ==> Mixed(block, rest, left, w, mix)[i] == block[i];
  }

  /** Plays frames from a fresh start: the first only prepares the second. */
  method PlayRun<V>(m: Mixer<V>, frames: seq<Frame>, blocks: seq<seq<V>>, buffer: array<V>) returns (out: seq<V>)
    requires m.Valid() && m.previousLength == 0 && Consistent(frames) && BlocksOk(m.z, frames, blocks)
    requires buffer != m.previousWindow && buffer.Length == m.z.large
    modifies m, buffer, m.previousWindow
    ensures out == RunOutput(m.z, m.windows, frames, blocks, |frames|)
    ensures m.samplesOutput == old(m.samplesOutput) + |out|
  {
    out := [];
    for i := 0 to |frames|
      invariant m.Valid() && m.samplesOutput == old(m.samplesOutput) + |out|
      invariant out == RunOutput(m.z, m.windows, frames, blocks, i)
      invariant i == 0 ==> m.previousLength == 0
      invariant i > 0 ==> LeftFrom(m.z, frames[i - 1], blocks[i - 1], m.previousLength, m.previousWindow[..])
    {
      var now := PlayFrame(m, frames, blocks, i, buffer);
      out := out + now;
    }
  }

  ghost predicate LeftFrom<V>(z: Sizes, f: Frame, block: seq<V>, length: int, saved: seq<V>)
    requires z.Ok() && |block| == f.Size(z)
  {
    length == |LeftOver(z, f, block)| <= |saved| && saved[..length] == LeftOver(z, f, block)
  }

  method PlayFrame<V>(m: Mixer<V>, frames: seq<Frame>, blocks: seq<seq<V>>, i: nat, buffer: array<V>)
    returns (now: seq<V>)
    requires m.Valid() && Consistent(frames) && BlocksOk(m.z, frames, blocks) && i < |frames|
    requires buffer != m.previousWindow && buffer.Length == m.z.large
    requires i == 0 ==> m.previousLength == 0
    requires i > 0 ==> LeftFrom(m.z, frames[i - 1], blocks[i - 1], m.previousLength, m.previousWindow[..])
    modifies m, buffer, m.previousWindow
    ensures m.Valid() && m.samplesOutput == old(m.samplesOutput) + |now|
    ensures LeftFrom(m.z, frames[i], blocks[i], m.previousLength, m.previousWindow[..])
    ensures now == if i == 0 then [] else Lapped(m.z, m.windows, frames[i - 1], blocks[i - 1], frames[i], blocks[i])
  {
    Load(buffer, blocks[i]);
    if i == 0 {
      now := FirstFrame(m, frames[i], blocks[i], buffer);
    } else {
      assert Fits(frames[i - 1], frames[i]);
      now := NextFrame(m, frames[i - 1], blocks[i - 1], frames[i], blocks[i], buffer);
    }
  }

  // Stands for decoding the frame into the buffer.
  method Load<V>(buffer: array<V>, block: seq<V>)
    requires |block| <= buffer.Length
    modifies buffer
    ensures buffer[..|block|] == block
  {
    forall k | 0 <= k < |block| { buffer[k] := block[k]; }
  }

  method FirstFrame<V>(m: Mixer<V>, f: Frame, block: seq<V>, buffer: array<V>) returns (now: seq<V>)
    requires m.Valid() && m.previousLength == 0 && buffer != m.previousWindow && buffer.Length == m.z.large
    requires |block| == f.Size(m.z) && buffer[..|block|] == block
    modifies m, buffer, m.previousWindow
    ensures m.Valid() && m.samplesOutput == old(m.samplesOutput) && now == []
    ensures LeftFrom(m.z, f, block, m.previousLength, m.previousWindow[..])
  {
    var z := m.z;
    var left, right, end := f.LeftStart(z), f.RightStart(z), f.RightEnd(z);
    ghost var loaded := buffer[..];
    RoomForFirst(z, f);
    FinishFirst(m, buffer, end, left, right);
    LeavesOver(z, f, block, loaded, m.previousWindow[..]);
    now := [];
  }

  lemma RoomForFirst(z: Sizes, f: Frame)
    requires z.Ok()
    ensures 0 <= f.LeftStart(z) <= f.RightStart(z) <= f.RightEnd(z) <= z.large
    ensures f.RightEnd(z) - f.RightStart(z) <= z.large / 2
  {
    var s, l := Quarters(z);
    Regions(z, f, s, l, if f.long then l else s);
    QuarterOf(l);
  }

  lemma LeavesOver<V>(z: Sizes, f: Frame, block: seq<V>, loaded: seq<V>, saved: seq<V>)
    requires z.Ok() && |block| == f.Size(z) <= |loaded| && loaded[..|block|] == block
    requires 0 <= f.RightStart(z) <= f.RightEnd(z) <= |loaded| && f.RightEnd(z) - f.RightStart(z) <= |saved|
    requires saved[..f.RightEnd(z) - f.RightStart(z)] == loaded[f.RightStart(z)..f.RightEnd(z)]
    ensures LeftFrom(z, f, block, f.RightEnd(z) - f.RightStart(z), saved)
  {
    RegionsInOrder(z, f);
    SliceOfPrefix(loaded, block, f.RightStart(z), f.RightEnd(z));
  }

  lemma SliceOfPrefix<V>(s: seq<V>, t: seq<V>, lo: nat, hi: nat)
    requires lo <= hi <= |t| <= |s| && s[..|t|] == t
    ensures s[lo..hi] == t[lo..hi]
  {
    forall i | lo <= i < hi ensures s[i] == t[i] { assert s[i] == s[..|t|][i]; }
    assert s[lo..hi] == t[lo..hi];
  }

  method FinishFirst<V>(m: Mixer<V>, buffer: array<V>, end: nat, left: nat, right: nat)
    requires m.Valid() && m.previousLength == 0 && buffer != m.previousWindow
    requires left <= right <= end <= buffer.Length && end - right <= m.previousWindow.Length
    modifies m, buffer, m.previousWindow
    ensures m.Valid() && m.previousLength == end - right && m.samplesOutput == old(m.samplesOutput)
    ensures m.previousWindow[..end - right] == old(buffer[..])[right..end]
  {
    var _ := m.FinishFrame(buffer, end, left, right);
    assert buffer[..][right..end] == buffer[right..end];
  }

  method FinishNext<V>(m: Mixer<V>, buffer: array<V>, end: nat, left: nat, right: nat, ghost rest: seq<V>)
    returns (now: seq<V>)
    requires m.Valid() && m.previousLength == |rest| > 0 && buffer != m.previousWindow
    requires left <= right <= end <= buffer.Length && end - right <= m.previousWindow.Length
    requires left + |rest| <= buffer.Length
    requires |rest| <= m.previousWindow.Length && m.previousWindow[..|rest|] == rest
    requires m.windows.Get(m.z, |rest|).Some? && |m.windows.Get(m.z, |rest|).value| == |rest|
    modifies m, buffer, m.previousWindow
    ensures m.Valid() && m.previousLength == end - right && m.samplesOutput == old(m.samplesOutput) + |now|
    ensures var mixed := Mixed(old(buffer[..]), rest, left, m.windows.Get(m.z, |rest|).value, m.windows.mix);
      now == mixed[left..right] && m.previousWindow[..end - right] == mixed[right..end]
  {
    var ready := m.FinishFrame(buffer, end, left, right);
    now := buffer[left..left + ready];
    assert buffer[..][left..right] == now && buffer[..][right..end] == buffer[right..end];
  }

  lemma RoomForNext(z: Sizes, a: Frame, b: Frame)
    requires z.Ok() && Fits(a, b)
    ensures 0 <= b.LeftStart(z) <= b.RightStart(z) <= b.RightEnd(z) <= z.large
    ensures b.RightEnd(z) - b.RightStart(z) <= z.large / 2
    ensures var n := a.RightEnd(z) - a.RightStart(z); 0 < n <= z.large / 2 && b.LeftStart(z) + n <= z.large
  {
    RoomForFirst(z, b);
    RoomForFirst(z, a);
    RegionsInOrder(z, a);
    RegionsInOrder(z, b);
    OverlapsAgree(z, a, b);
  }

  method NextFrame<V>(m: Mixer<V>, a: Frame, blockA: seq<V>, b: Frame, blockB: seq<V>, buffer: array<V>)
    returns (now: seq<V>)
    requires m.Valid() && buffer != m.previousWindow && buffer.Length == m.z.large && Fits(a, b)
    requires |blockA| == a.Size(m.z) && |blockB| == b.Size(m.z) && buffer[..|blockB|] == blockB
    requires LeftFrom(m.z, a, blockA, m.previousLength, m.previousWindow[..])
    modifies m, buffer, m.previousWindow
    ensures m.Valid() && m.samplesOutput == old(m.samplesOutput) + |now|
    ensures LeftFrom(m.z, b, blockB, m.previousLength, m.previousWindow[..])
    ensures now == Lapped(m.z, m.windows, a, blockA, b, blockB)
  {
    var z := m.z;
    var left, right, end := b.LeftStart(z), b.RightStart(z), b.RightEnd(z);
    ghost var rest := LeftOver(z, a, blockA);
    RoomForNext(z, a, b);
    MixedParts(z, m.windows, a, blockA, b, blockB, buffer[..]);
    now := FinishNext(m, buffer, end, left, right, rest);
  }

  // ----- fading -----

  /** With the weights `one` and `zero` one of the two samples comes out. */
  ghost predicate Picks<V(!new)>(mix: (V, V, V, V) -> V, zero: V, one: V) {
    forall a, b :: mix(a, b, one, zero) == a && mix(a, b, zero, one) == b
  }

  /** Where the half window is `one` and its mirror place `zero`, the new sample comes out; where
      it is the other way round, the old one does. */
  lemma MixedFades<V(!new)>(block: seq<V>, rest: seq<V>, left: nat, w: seq<V>, mix: (V, V, V, V) -> V, zero: V,
                            one: V, i: nat)
    requires |w| == |rest| && i < |rest| && left + i < |block|
    requires Picks(mix, zero, one)
    ensures var m := Mixed(block, rest, left, w, mix); var n := |rest|;
      && (w[i] == one && w[n - 1 - i] == zero ==> m[left + i] == block[left + i])
      && (w[i] == zero && w[n - 1 - i] == one ==> m[left + i] == rest[i])
  {
  }

  /** Over the overlap of two frames the first one fades out while the second fades in, and
      behind it the second comes out as it is. */
  lemma {:induction false} LappedFades<V(!new)>(z: Sizes, w: Windows<V>, a: Frame, blockA: seq<V>, b: Frame,
                                                blockB: seq<V>,
                                          zero: V, one: V, i: nat)
    requires z.Ok() && w.Ok(z) && Fits(a, b) && |blockA| == a.Size(z) && |blockB| == b.Size(z)
    requires Picks(w.mix, zero, one)
    requires i < b.RightStart(z) - b.LeftStart(z)
    ensures var lapped, n := Lapped(z, w, a, blockA, b, blockB), a.RightEnd(z) - a.RightStart(z);
      && w.Get(z, n).Some? && |w.Get(z, n).value| == n
      && var half := w.Get(z, n).value;
         if i < n then
           && (half[i] == one && half[n - 1 - i] == zero ==> lapped[i] == blockB[b.LeftStart(z) + i])
           && (half[i] == zero && half[n - 1 - i] == one ==> lapped[i] == blockA[a.RightStart(z) + i])
         else lapped[i] == blockB[b.LeftStart(z) + i]
  {
    RegionsInOrder(z, a);
    RegionsInOrder(z, b);
    OverlapsAgree(z, a, b);
    LappedAt(z, w, a, blockA, b, blockB, i);
    var rest := LeftOver(z, a, blockA);
    assert |rest| == a.RightEnd(z) - a.RightStart(z);
    if i < |rest| { MixedFades(blockB, rest, b.LeftStart(z), w.Get(z, |rest|).value, w.mix, zero, one, i); }
  }

  lemma LappedAt<V>(z: Sizes, w: Windows<V>, a: Frame, blockA: seq<V>, b: Frame, blockB: seq<V>, i: nat)
    requires z.Ok() && w.Ok(z) && Fits(a, b) && |blockA| == a.Size(z) && |blockB| == b.Size(z)
    requires i < b.RightStart(z) - b.LeftStart(z)
    ensures var rest, left := LeftOver(z, a, blockA), b.LeftStart(z);
      && |rest| == a.RightEnd(z) - a.RightStart(z) && w.Get(z, |rest|).Some? && |w.Get(z, |rest|).value| == |rest|
      && 0 <= left && left + i < |blockB| && (i < |rest| ==> rest[i] == blockA[a.RightStart(z) + i])
      && Lapped(z, w, a, blockA, b, blockB)[i] == Mixed(blockB, rest, left, w.Get(z, |rest|).value, w.mix)[left + i]
  {
    OverlapSizes(z, w, a, b);
    var rest, left := LeftOver(z, a, blockA), b.LeftStart(z);
    SliceAt(blockA, a.RightStart(z), a.RightEnd(z));
    SliceAt(Mixed(blockB, rest, left, w.Get(z, |rest|).value, w.mix), left, b.RightStart(z));
  }

  lemma OverlapSizes<V>(z: Sizes, w: Windows<V>, a: Frame, b: Frame)
    requires z.Ok() && w.Ok(z) && Fits(a, b)
    ensures 0 <= a.RightStart(z) <= a.RightEnd(z) <= a.Size(z) && 0 <= b.LeftStart(z) <= b.RightStart(z) <= b.Size(z)
    ensures var n := a.RightEnd(z) - a.RightStart(z); w.Get(z, n).Some? && |w.Get(z, n).value| == n
  {
    RegionsInOrder(z, a);
    RegionsInOrder(z, b);
    OverlapsAgree(z, a, b);
  }

  lemma SliceAt<V>(s: seq<V>, lo: nat, hi: nat)
    requires lo <= hi <= |s|
    ensures forall i :: 0 <= i < hi - lo ==> s[lo..hi][i] == s[lo + i]
  {
  }

  // ----- several channels -----

  predicate Wide<U>(s: seq<seq<U>>, n: nat) { forall i :: 0 <= i < |s| ==> |s[i]| == n }

  function Channel<U>(s: seq<seq<U>>, n: nat, c: nat): (r: seq<U>)
    requires Wide(s, n) && c < n
    ensures |r| == |s|
  {
    seq(|s|, i requires 0 <= i < |s| => s[i][c])
  }

  function ToAll<U>(w: seq<U>, n: nat): (r: seq<seq<U>>)
    ensures |r| == |w| && Wide(r, n)
  {
    seq(|w|, i requires 0 <= i < |w| => seq(n, _ requires 0 <= i < |w| => w[i]))
  }

  /** The windows for samples of `n` channels: the same for each channel, mixed by itself. */
  function Spread<U>(w: Windows<U>, n: nat): Windows<seq<U>> {
    Windows(ToAll(w.small, n), ToAll(w.large, n), (a, b, x, y) =>
      if |a| == |b| == |x| == |y| == n then seq(n, c requires 0 <= c < n => w.mix(a[c], b[c], x[c], y[c])) else a)
  }

  lemma SpreadGet<U>(z: Sizes, w: Windows<U>, n: nat, len: int)
    ensures w.Ok(z) ==> Spread(w, n).Ok(z)
    ensures Spread(w, n).Get(z, len) == match w.Get(z, len) case None => None case Some(half) => Some(ToAll(half, n))
  {
  }

  lemma MixedChannel<U>(w: Windows<U>, n: nat, c: nat, block: seq<seq<U>>, rest: seq<seq<U>>, left: nat, half: seq<U>)
    requires c < n && Wide(block, n) && Wide(rest, n) && |half| == |rest|
    ensures var mixed := Mixed(block, rest, left, ToAll(half, n), Spread(w, n).mix);
      && Wide(mixed, n)
      && Channel(mixed, n, c) == Mixed(Channel(block, n, c), Channel(rest, n, c), left, half, w.mix)
  {
  }

  lemma SliceChannel<U>(s: seq<seq<U>>, n: nat, c: nat, lo: nat, hi: nat)
    requires Wide(s, n) && c < n && lo <= hi <= |s|
    ensures Wide(s[lo..hi], n) && Channel(s[lo..hi], n, c) == Channel(s, n, c)[lo..hi]
  {
  }

  lemma AppendChannel<U>(s: seq<seq<U>>, t: seq<seq<U>>, n: nat, c: nat)
    requires Wide(s, n) && Wide(t, n) && c < n
    ensures Wide(s + t, n) && Channel(s + t, n, c) == Channel(s, n, c) + Channel(t, n, c)
  {
  }

  lemma LappedChannel<U>(z: Sizes, w: Windows<U>, n: nat, c: nat, a: Frame, blockA: seq<seq<U>>, b: Frame,
                         blockB: seq<seq<U>>)
    requires z.Ok() && w.Ok(z) && c < n && Fits(a, b)
    requires |blockA| == a.Size(z) && |blockB| == b.Size(z) && Wide(blockA, n) && Wide(blockB, n)
    ensures var lapped := Lapped(z, Spread(w, n), a, blockA, b, blockB);
      && Wide(lapped, n)
      && Channel(lapped, n, c) == Lapped(z, w, a, Channel(blockA, n, c), b, Channel(blockB, n, c))
  {
    RegionsInOrder(z, a);
    RegionsInOrder(z, b);
    OverlapsAgree(z, a, b);
    var rest := LeftOver(z, a, blockA);
    SliceChannel(blockA, n, c, a.RightStart(z), a.RightEnd(z));
    SpreadGet(z, w, n, |rest|);
    var half := w.Get(z, |rest|).value;
    MixedChannel(w, n, c, blockB, rest, b.LeftStart(z), half);
    SliceChannel(Mixed(blockB, rest, b.LeftStart(z), ToAll(half, n), Spread(w, n).mix), n, c, b.LeftStart(z),
                 b.RightStart(z));
  }

  /** The blocks of one channel. */
  function ChannelBlocks<U>(z: Sizes, frames: seq<Frame>, blocks: seq<seq<seq<U>>>, n: nat, c: nat): (r: seq<seq<U>>)
    requires BlocksOk(z, frames, blocks) && c < n && forall i :: 0 <= i < |blocks| ==> Wide(blocks[i], n)
    ensures BlocksOk(z, frames, r)
  {
    seq(|blocks|, i requires 0 <= i < |blocks| => Channel(blocks[i], n, c))
  }

  /** Every channel of a run is played as if it were the only one. */
  lemma {:induction false} OutputOfChannel<U>(z: Sizes, w: Windows<U>, n: nat, c: nat, frames: seq<Frame>,
                                              blocks: seq<seq<seq<U>>>, k: nat)
    requires z.Ok() && w.Ok(z) && c < n && Consistent(frames) && BlocksOk(z, frames, blocks) && k <= |frames|
    requires forall i :: 0 <= i < |blocks| ==> Wide(blocks[i], n)
    ensures var all := RunOutput(z, Spread(w, n), frames, blocks, k);
      Wide(all, n) && Channel(all, n, c) == RunOutput(z, w, frames, ChannelBlocks(z, frames, blocks, n, c), k)
    decreases k
  {
    if k >= 2 {
      OutputOfChannel(z, w, n, c, frames, blocks, k - 1);
      LappedChannel(z, w, n, c, frames[k - 2], blocks[k - 2], frames[k - 1], blocks[k - 1]);
      AppendChannel(RunOutput(z, Spread(w, n), frames, blocks, k - 1),
                    Lapped(z, Spread(w, n), frames[k - 2], blocks[k - 2], frames[k - 1], blocks[k - 1]), n, c);
    }
  }
}
