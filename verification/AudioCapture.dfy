/** The ring buffer that an audio callback fills and a reader takes the latest samples from.
    Each method body runs under the lock, so the methods are the atomic steps. */
module AudioCapture {
  import opened Numbers

  /** The index `k` places before `pos` on a ring of `size` places. */
  function Back(pos: nat, k: nat, size: nat): int {
    if k <= pos then pos - k else pos - k + size
  }

  /** The ring holds the last `len` samples of `captured`, the latest just before `pos`. */
  ghost predicate Holds<T>(ring: seq<T>, pos: nat, len: nat, captured: seq<T>) {
    && pos < |ring| && len == Min(|captured|, |ring|)
    && forall k :: 1 <= k <= len ==> SampleBack(ring, pos, k, captured)
  }

  lemma RemainderOnce(a: nat, n: nat)
    requires 0 < n && a < 2 * n
    ensures a % n == if a < n then a else a - n
  {
    var q, r := a / n, a % n;
    assert a == q * n + r;
    assert q >= 2 ==> q * n >= 2 * n;
    assert q <= 1;
  }

  /** The ring after `n` new samples have been written from `pos` on, wrapping around. */
  function Written<T>(ring: seq<T>, pos: nat, chunk: seq<T>): (r: seq<T>)
    requires pos < |ring| && |chunk| <= |ring|
    ensures |r| == |ring|
  {
    seq(|ring|, i requires 0 <= i < |ring| =>
      if pos <= i < pos + |chunk| then chunk[i - pos]
      else if i + |ring| < pos + |chunk| then chunk[i + |ring| - pos]
      else ring[i])
  }

  function NextPos(pos: nat, n: nat, size: nat): int {
    if pos + n < size then pos + n else pos + n - size
  }

  lemma NewSample<T>(ring: seq<T>, pos: nat, chunk: seq<T>, k: nat)
    requires pos < |ring| && 1 <= k <= |chunk| <= |ring|
    ensures var p := NextPos(pos, |chunk|, |ring|);
      && p >= 0 && 0 <= Back(p, k, |ring|) < |ring|
      && Written(ring, pos, chunk)[Back(p, k, |ring|)] == chunk[|chunk| - k]
  {
  }

  lemma OldSample<T>(ring: seq<T>, pos: nat, chunk: seq<T>, k: nat)
    requires pos < |ring| && |chunk| < k <= |ring| && |chunk| <= |ring|
    ensures var p := NextPos(pos, |chunk|, |ring|);
      && p >= 0 && 0 <= Back(p, k, |ring|) < |ring|
      && Back(p, k, |ring|) == Back(pos, k - |chunk|, |ring|)
      && Written(ring, pos, chunk)[Back(p, k, |ring|)] == ring[Back(p, k, |ring|)]
  {
  }

  /** Writing samples keeps the ring in step with what has been captured; of a burst longer
      than the ring only the end is written, and only that matters. */
  lemma WriteKeeps<T>(ring: seq<T>, pos: nat, len: nat, captured: seq<T>, burst: seq<T>, n: nat)
    requires Holds(ring, pos, len, captured) && n == Min(|burst|, |ring|)
    ensures NextPos(pos, n, |ring|) >= 0
    ensures Holds(Written(ring, pos, burst[|burst| - n..]), NextPos(pos, n, |ring|), Min(len + n, |ring|),
                  captured + burst)
  {
    var chunk := burst[|burst| - n..];
    forall k | 1 <= k <= Min(len + n, |ring|)
      ensures SampleBack(Written(ring, pos, chunk), NextPos(pos, n, |ring|), k, captured + burst)
    {
      KeepsSample(ring, pos, len, captured, burst, chunk, k);
    }
  }

  ghost predicate SampleBack<T>(ring: seq<T>, pos: int, k: int, captured: seq<T>) {
    pos >= 0 && 0 <= k <= |captured| && 0 <= Back(pos, k, |ring|) < |ring| && 0 < k
      && ring[Back(pos, k, |ring|)] == captured[|captured| - k]
  }

  lemma KeepsSample<T>(ring: seq<T>, pos: nat, len: nat, captured: seq<T>, burst: seq<T>, chunk: seq<T>, k: nat)
    requires Holds(ring, pos, len, captured) && |chunk| == Min(|burst|, |ring|) && chunk == burst[|burst| - |chunk|..]
    requires 1 <= k <= Min(len + |chunk|, |ring|)
    ensures SampleBack(Written(ring, pos, chunk), NextPos(pos, |chunk|, |ring|), k, captured + burst)
  {
    var n, all := |chunk|, captured + burst;
    if k <= n {
      NewSample(ring, pos, chunk, k);
      assert all[|all| - k] == burst[|burst| - k] == chunk[n - k];
    } else {
      assert SampleBack(ring, pos, k - n, captured);
      OldSample(ring, pos, chunk, k);
      assert all[|all| - k] == captured[|captured| - (k - n)];
    }
  }

  class AudioAsync<T> {
    const device: nat       // 0 when no device could be opened
    const lenMs: nat
    const sampleRate: nat
    const audio: array<T>
    var running: bool
    var audioPos: nat
    var audioLen: nat
    ghost var captured: seq<T>  // everything captured since the last clear

    ghost predicate Valid()
      reads this, audio
    {
      if device == 0 then !running
      else audio.Length == (sampleRate * lenMs) / 1000 && Holds(audio[..], audioPos, audioLen, captured)
    }

    /** After initialisation: paused, nothing captured. */
    constructor (dev: nat, length: nat, rate: nat, buffer: array<T>)
      requires dev != 0 ==> buffer.Length == (rate * length) / 1000 > 0
      ensures Valid() && !running && captured == [] && audio == buffer && device == dev && lenMs == length
      ensures sampleRate == rate
    {
      device, lenMs, sampleRate, audio := dev, length, rate, buffer;
      running, audioPos, audioLen, captured := false, 0, 0, [];
    }

    method Resume() returns (ok: bool)
      requires Valid()
      modifies this`running
      ensures Valid() && ok == (device != 0 && !old(running))
      ensures running == (old(running) || ok)
    {
      if device == 0 || running { return false; }
      running := true;
      ok := true;
    }

    method Pause() returns (ok: bool)
      requires Valid()
      modifies this`running
      ensures Valid() && ok == (device != 0 && old(running))
      ensures running == (old(running) && !ok)
    {
      if device == 0 || !running { return false; }
      running := false;
      ok := true;
    }

    method Clear() returns (ok: bool)
      requires Valid()
      modifies this`audioPos, this`audioLen, this`captured
      ensures Valid() && ok == (device != 0 && running)
      ensures captured == if ok then [] else old(captured)
    {
      if device == 0 || !running { return false; }
      audioPos, audioLen := 0, 0;
      captured := [];
      ok := true;
    }

    /** Samples arriving from the device; ignored while paused. */
    method Callback(burst: seq<T>)
      requires Valid()
      modifies this`audioPos, this`audioLen, this`captured, audio
      ensures Valid()
      ensures captured == if running then old(captured) + burst else old(captured)
    {
      if !running { return; }
      var n, skip := |burst|, 0;
      if n > audio.Length {
        n := audio.Length;
        skip := |burst| - n;
      }
      WriteKeeps(audio[..], audioPos, audioLen, captured, burst, n);
      Write(burst[skip..]);
      Advance(n);
      audioLen := Min(audioLen + n, audio.Length);
      captured := captured + burst;
    }

    method Advance(n: nat)
      requires audioPos < audio.Length && n <= audio.Length
      modifies this`audioPos
      ensures audioPos == NextPos(old(audioPos), n, audio.Length)
    {
      RemainderOnce(audioPos + n, audio.Length);
      audioPos := (audioPos + n) % audio.Length;
    }

    // Copies in one piece, or in two where the ring ends.
    method Write(chunk: seq<T>)
      requires audioPos < audio.Length && |chunk| <= audio.Length
      modifies audio
      ensures audio[..] == Written(old(audio[..]), audioPos, chunk)
    {
      var n := |chunk|;
      if audioPos + n > audio.Length {
        var n0 := audio.Length - audioPos;
        forall i | 0 <= i < n0 { audio[audioPos + i] := chunk[i]; }
        forall i | 0 <= i < n - n0 { audio[i] := chunk[n0 + i]; }
      } else {
        forall i | 0 <= i < n { audio[audioPos + i] := chunk[i]; }
      }
    }

    /** How many samples `ms` milliseconds are; the whole buffer's worth if not positive. */
    function Requested(ms: int): nat {
      (sampleRate * if ms <= 0 then lenMs else ms) / 1000
    }

    /** As many whole samples as fit in that time, and the whole ring without a time. */
    lemma RequestedIs(ms: int)
      requires Valid() && device != 0
      ensures ms > 0 ==> Requested(ms) * 1000 <= sampleRate * ms < (Requested(ms) + 1) * 1000
      ensures ms <= 0 ==> Requested(ms) == audio.Length
    {
    }

    /** The latest samples since the last clear, in order; nothing changes. */
    method Get(ms: int, before: seq<T>) returns (result: seq<T>)
      requires Valid()
      ensures !running ==> result == before
      ensures running ==>
        var n := Min(Requested(ms), Min(|captured|, audio.Length)); result == captured[|captured| - n..]
    {
      if device == 0 || !running { return before; }
      var n := Requested(ms);
      if n > audioLen { n := audioLen; }
      var s0 := audioPos - n;
      if s0 < 0 { s0 := s0 + audio.Length; }
      if s0 + n > audio.Length {
        var n0 := audio.Length - s0;
        result := audio[s0..] + audio[..n - n0];
      } else {
        result := audio[s0..s0 + n];
      }
      LatestSamples(audio[..], audioPos, audioLen, captured, n, s0, result);
    }
  }

  lemma LatestSamples<T>(ring: seq<T>, pos: nat, len: nat, captured: seq<T>, n: nat, s0: int, result: seq<T>)
    requires Holds(ring, pos, len, captured) && n <= len
    requires 0 <= s0 == Back(pos, n, |ring|) <= |ring|
    requires result == if s0 + n > |ring| then ring[s0..] + ring[..n - (|ring| - s0)] else ring[s0..s0 + n]
    ensures result == captured[|captured| - n..]
  {
    forall i | 0 <= i < n ensures result[i] == captured[|captured| - n..][i] {
      assert SampleBack(ring, pos, n - i, captured);
      assert result[i] == ring[Back(pos, n - i, |ring|)];
    }
  }

  // ----- whole runs -----

  datatype Step<T> = Captures(burst: seq<T>) | Clears | Pauses | Resumes

  /** Whether the device runs after the steps. */
  function RunningAfter<T>(steps: seq<Step<T>>): bool {
    if steps == [] then false
    else match steps[|steps| - 1]
      case Pauses => false
      case Resumes => true
      case _ => RunningAfter(steps[..|steps| - 1])
  }

  /** What has been captured while running since the last clear. */
  function CapturedAfter<T>(steps: seq<Step<T>>): seq<T> {
    if steps == [] then []
    else
      var before := steps[..|steps| - 1];
      match steps[|steps| - 1]
      case Captures(burst) => if RunningAfter(before) then CapturedAfter(before) + burst else CapturedAfter(before)
      case Clears => if RunningAfter(before) then [] else CapturedAfter(before)
      case _ => CapturedAfter(before)
  }

  /** The device runs exactly when it has been resumed and not paused since. */
  lemma {:induction false} RunsSinceResumed<T>(steps: seq<Step<T>>)
    ensures RunningAfter(steps) <==>
              exists r :: 0 <= r < |steps| && steps[r].Resumes? && forall j :: r < j < |steps| ==> !steps[j].Pauses?
    decreases |steps|
  {
    if steps != [] {
      var m := |steps| - 1;
      RunsSinceResumed(steps[..m]);
      assert forall i :: 0 <= i < m ==> steps[..m][i] == steps[i];
      assert steps[m].Resumes? ==> steps[m] == steps[|steps| - 1];
    }
  }

  /** The bursts from step `c` on that find the device running, one after the other. */
  function Bursts<T>(steps: seq<Step<T>>, c: nat): seq<T>
    requires c <= |steps|
    decreases |steps|
  {
    if c == |steps| then []
    else
      var m := |steps| - 1;
      Bursts(steps[..m], c) + if steps[m].Captures? && RunningAfter(steps[..m]) then steps[m].burst else []
  }

  predicate ClearsAt<T>(steps: seq<Step<T>>, i: nat)
    requires i < |steps|
  {
    steps[i].Clears? && RunningAfter(steps[..i])
  }

  /** What counts as captured are the bursts since the last clear that found the device running. */
  lemma {:induction false} CapturedSinceClear<T>(steps: seq<Step<T>>, c: nat)
    requires c <= |steps| && (c > 0 ==> ClearsAt(steps, c - 1))
    requires forall i :: c <= i < |steps| ==> !ClearsAt(steps, i)
    ensures CapturedAfter(steps) == Bursts(steps, c)
    decreases |steps|
  {
    if c < |steps| {
      var m := |steps| - 1;
      forall i | 0 <= i < m ensures ClearsAt(steps[..m], i) == ClearsAt(steps, i) {
        assert steps[..m][..i] == steps[..i];
      }
      assert !ClearsAt(steps, m);
      CapturedSinceClear(steps[..m], c);
    }
  }

  /** After any run of steps the latest samples of the run can be had. */
  method RunAndGet<T>(a: AudioAsync<T>, steps: seq<Step<T>>, ms: int) returns (result: seq<T>)
    requires a.Valid() && a.device != 0 && !a.running && a.captured == []
    modifies a, a.audio
    ensures a.Valid() && a.running == RunningAfter(steps)
    ensures RunningAfter(steps) ==>
      var all := CapturedAfter(steps); var n := Min(a.Requested(ms), Min(|all|, a.audio.Length));
        result == all[|all| - n..]
  {
    for i := 0 to |steps|
      invariant a.Valid() && a.running == RunningAfter(steps[..i]) && a.captured == CapturedAfter(steps[..i])
    {
      assert steps[..i + 1][..i] == steps[..i];
      match steps[i]
      case Captures(burst) => a.Callback(burst);
      case Clears => var _ := a.Clear();
      case Pauses => var _ := a.Pause();
      case Resumes => var _ := a.Resume();
    }
    assert steps[..|steps|] == steps;
    result := a.Get(ms, []);
  }
}
