/**
 The echo of the sound mixer: a delay line in a circular buffer that is walked
 downwards, with a saturating feedback filter, mixed into stereo frames.
 */
module SoundDelay {
  import Seqs
  import opened Arith

  // ----- constants and integer widths -----

  const FIFO_SIZE: nat := 8641
  const FIFO_SIZE_8K: nat := 1441
  const ONE_S: nat := 1000
  const MAX_TIME: nat := (FIFO_SIZE - 1) * ONE_S / 48000
  const MAX_TIME_8K: nat := (FIFO_SIZE_8K - 1) * ONE_S / 8000

  /** A product as a 32-bit register holds it. */
  function Wrap32(x: int): int {
    var m := x % 0x1_0000_0000;
    if m < 0x8000_0000 then m else m - 0x1_0000_0000
  }

  predicate InInt32(x: int) {
    -0x8000_0000 <= x < 0x8000_0000
  }

  predicate InInt16(x: int) {
    -0x8000 <= x < 0x8000
  }

  predicate Samples(w: seq<int>) {
    forall i :: 0 <= i < |w| ==> InInt16(w[i])
  }

  lemma SamplesPrefix(w: seq<int>, n: nat)
    requires n <= |w| && Samples(w)
    ensures Samples(w[..n])
  {
  }

  /** `sdly_low_pass_filter` */
  function Clamp(x: int): (r: int)
    ensures InInt16(r) && (InInt16(x) ==> r == x)
  {
    if x > 32767 then 32767 else if x < -32768 then -32768 else x
  }

  function Dist(x: int, y: int): nat {
    if x < y then y - x else x - y
  }

  /** The filter saturates: its result is the 16-bit value nearest to the sample, so louder never becomes softer. */
  lemma Saturates(x: int)
    ensures InInt16(Clamp(x)) && forall z :: InInt16(z) ==> Dist(Clamp(x), x) <= Dist(z, x)
    ensures forall y :: x <= y ==> Clamp(x) <= Clamp(y)
  {
  }

  /** `(temp * vol) >> 4`, limited. */
  function Amplify(temp: int, vol: nat): (r: int)
    ensures InInt16(r)
  {
    Clamp(Wrap32(temp * vol) / 16)
  }

  lemma WrapSame(x: int)
    requires InInt32(x)
    ensures Wrap32(x) == x
  {
  }

  /** A register holds the number itself up to a multiple of its range. */
  lemma Wraps(x: int)
    ensures InInt32(Wrap32(x)) && (Wrap32(x) - x) % 0x1_0000_0000 == 0
  {
  }

  /** No product overflows, whatever the samples, exactly for volumes up to 32768. */
  lemma VolumeBound(vol: nat)
    ensures (forall m, l :: InInt16(m) && InInt16(l) ==> InInt32((m + l) * vol)) <==> vol <= 32768
  {
    if vol <= 32768 {
      forall m, l | InInt16(m) && InInt16(l)
        ensures InInt32((m + l) * vol)
      {
        ProductBound(m + l, vol, 32768);
      }
    } else {
      var m, l := -32768, -32768;
      assert InInt16(m) && InInt16(l);
      assert (m + l) * vol <= -65536 * 32769 by { ProductBelow(vol); }
      assert !InInt32((m + l) * vol);
    }
  }

  lemma ProductBelow(vol: nat)
    requires vol >= 32769
    ensures (-32768 + -32768) * vol <= -65536 * 32769
  {
  }

  lemma MulUp(a: nat, b: nat, c: nat)
    requires b <= c
    ensures 0 <= a * b <= a * c
  {
  }

  lemma ProductBound(x: int, vol: nat, bound: nat)
    requires -65536 <= x <= 65534 && vol <= bound <= 32768
    ensures -65536 * 32768 <= x * vol <= 65534 * 32768
  {
    if x >= 0 {
      MulUp(x, vol, 32768);
    } else {
      MulUp(-x, vol, 32768);
      Negate(x, vol);
    }
  }

  lemma Negate(x: int, y: int)
    ensures (-x) * y == -(x * y)
  {
  }

  /** Up to that volume the mixed sample is what exact arithmetic gives. */
  lemma AmplifyExact(m: int, l: int, vol: nat)
    requires InInt16(m) && InInt16(l) && vol <= 32768
    ensures Amplify(m + l, vol) == Clamp((m + l) * vol / 16)
  {
    VolumeBound(vol);
    WrapSame((m + l) * vol);
  }

  /** Music times its volume never overflows. */
  lemma MusicFits(x: int, vol: nat)
    requires InInt16(x) && vol < 0x10000
    ensures InInt32(x * vol)
  {
    if x >= 0 {
      MulUp(x, vol, 0xFFFF);
    } else {
      MulUp(-x, vol, 0xFFFF);
      Negate(x, vol);
    }
  }

  // ----- the filter, as a recurrence -----

  /** What frame `k` puts into the delay line: half of what frame `k - d` put there, and its right sample. */
  function Memory(right: seq<int>, k: int, d: nat): (m: int)
    requires d > 0 && k < |right|
    ensures InInt16(m)
    decreases k
  {
    if k < 0 then 0 else Clamp(Memory(right, k - d, d) / 2 + right[k])
  }

  /** Earlier frames do not depend on later ones. */
  lemma {:induction false} MemoryPrefix(right: seq<int>, more: seq<int>, k: int, d: nat)
    requires d > 0 && k < |right|
    ensures Memory(right + more, k, d) == Memory(right, k, d)
    decreases k
  {
    if k >= 0 {
      MemoryPrefix(right, more, k - d, d);
    }
  }

  /** The delayed value that meets the frame after the frames `right`. */
  function Delayed(right: seq<int>, d: nat): int
    requires d > 0
  {
    Memory(right, |right| - d, d)
  }

  // ----- frames -----

  /** The right samples of interleaved stereo frames. */
  function Rights(s: seq<int>): (r: seq<int>)
    ensures |r| == |s| / 2
  {
    seq(|s| / 2, j requires 0 <= j < |s| / 2 => s[2 * j + 1])
  }

  /** The sample that frame `j` of `s` becomes, the frames `right` having gone before. */
  function Voice(right: seq<int>, s: seq<int>, j: nat, started: bool, d: nat, vol: nat): (y: int)
    requires d > 0 && 2 * j < |s|
    ensures InInt16(y)
  {
    Amplify((if started then Delayed(right + Rights(s[..2 * j]), d) else 0) + s[2 * j], vol)
  }

  /** Up to volume 32768 the voice is the 16-bit value nearest to the exact one. */
  lemma VoiceNearest(right: seq<int>, s: seq<int>, j: nat, started: bool, d: nat, vol: nat)
    requires d > 0 && 2 * j < |s| && Samples(s) && vol <= 32768
    ensures var k := |right| + j - d;
      var echo := if started then Memory(right + Rights(s[..2 * j]), k, d) else 0;
      var exact := (echo + s[2 * j]) * vol / 16;
      InInt16(Voice(right, s, j, started, d, vol))
      && forall z :: InInt16(z) ==> Dist(Voice(right, s, j, started, d, vol), exact) <= Dist(z, exact)
  {
    var echo := if started then Delayed(right + Rights(s[..2 * j]), d) else 0;
    AmplifyExact(echo, s[2 * j], vol);
    Saturates((echo + s[2 * j]) * vol / 16);
    hide Clamp, Amplify, Memory;
  }

  /** What goes into the line is the 16-bit value nearest to half of what comes out and the right sample. */
  lemma MemoryNearest(right: seq<int>, k: nat, d: nat)
    requires d > 0 && k < |right|
    ensures var exact := (if k < d then 0 else Memory(right, k - d, d)) / 2 + right[k];
      forall z :: InInt16(z) ==> Dist(Memory(right, k, d), exact) <= Dist(z, exact)
  {
    Saturates((if k < d then 0 else Memory(right, k - d, d)) / 2 + right[k]);
    hide Clamp;
  }

  // ----- an echo -----

  function Halved(x: int, n: nat): int {
    if n == 0 then x else Halved(x, n - 1) / 2
  }

  /** Nothing comes out of a line into which nothing went. */
  lemma {:induction false} QuietLine(right: seq<int>, k: int, d: nat)
    requires d > 0 && k < |right| && forall i :: 0 <= i <= k ==> right[i] == 0
    ensures Memory(right, k, d) == 0
    decreases k
  {
    if k >= 0 {
      QuietLine(right, k - d, d);
    }
  }

  /** One sample comes round halved each time. */
  lemma {:induction false} ComesRound(right: seq<int>, k: nat, n: nat, d: nat)
    requires d > 0 && k + n * d < |right| && InInt16(right[k])
    requires forall i :: 0 <= i < |right| && i != k ==> right[i] == 0
    ensures Memory(right, k + n * d, d) == Halved(right[k], n) && InInt16(Halved(right[k], n))
  {
    if n == 0 {
      QuietLine(right, k - d, d);
    } else {
      TimesLess(n, d);
      ComesRound(right, k, n - 1, d);
    }
  }

  lemma TimesLess(n: nat, d: nat)
    requires n > 0 && d > 0
    ensures n * d == (n - 1) * d + d && n * d > 0
  {
    Gap(0, n, d);
  }

  /**
   At volume 16 a single right sample in silence is not heard for `d` frames, then as it is, and then halved every `d`
   frames.
   */
  lemma EchoHeard(s: seq<int>, k: nat, n: nat, d: nat)
    requires d > 0 && 2 * (k + n * d + d) + 1 < |s| && InInt16(s[2 * k + 1])
    requires forall i :: 0 <= i < |s| && i != 2 * k + 1 ==> s[i] == 0
    ensures Voice([], s, k + n * d + d, true, d, 16) == Halved(s[2 * k + 1], n)
    ensures forall j :: 0 <= j < k + d ==> Voice([], s, j, true, d, 16) == 0
  {
    hide Voice, Memory, Halved;
    HeardAt(s, k, n, d, k + n * d + d);
    forall j | 0 <= j < k + d
      ensures Voice([], s, j, true, d, 16) == 0
    {
      Unheard(s, k, d, j);
    }
  }

  /** The right samples of the frames before frame `j`. */
  lemma RightsOf(s: seq<int>, j: nat)
    requires 2 * j <= |s|
    ensures var r := [] + Rights(s[..2 * j]); |r| == j && forall i :: 0 <= i < j ==> r[i] == s[2 * i + 1]
  {
  }

  lemma HeardAt(s: seq<int>, k: nat, n: nat, d: nat, j: nat)
    requires d > 0 && j == k + n * d + d && 2 * j + 1 < |s| && InInt16(s[2 * k + 1])
    requires forall i :: 0 <= i < |s| && i != 2 * k + 1 ==> s[i] == 0
    ensures Voice([], s, j, true, d, 16) == Halved(s[2 * k + 1], n)
  {
    hide Memory, Halved, Amplify, Rights;
    var r := [] + Rights(s[..2 * j]);
    RightsOf(s, j);
    Reach(n, d);
    ComesRound(r, k, n, d);
    Unity(Delayed(r, d), s[2 * j]);
  }

  lemma Reach(n: nat, d: nat)
    ensures n * d >= 0
  {
  }

  lemma Unheard(s: seq<int>, k: nat, d: nat, j: nat)
    requires d > 0 && j < k + d && 2 * (k + d) + 1 < |s|
    requires forall i :: 0 <= i < |s| && i != 2 * k + 1 ==> s[i] == 0
    ensures Voice([], s, j, true, d, 16) == 0
  {
    hide Memory, Amplify, Rights;
    var r := [] + Rights(s[..2 * j]);
    RightsOf(s, j);
    QuietLine(r, j - d, d);
    Unity(Delayed(r, d), s[2 * j]);
  }

  lemma Unity(m: int, l: int)
    requires InInt16(m) && l == 0
    ensures Amplify(m + l, 16) == m
  {
    AmplifyExact(m, l, 16);
  }

  lemma RightsCat(a: seq<int>, b: seq<int>)
    requires |a| % 2 == 0
    ensures Rights(a + b) == Rights(a) + Rights(b)
  {
    var s := a + b;
    forall j | 0 <= j < |s| / 2
      ensures Rights(s)[j] == (Rights(a) + Rights(b))[j]
    {
      if 2 * j < |a| {
        assert s[2 * j + 1] == a[2 * j + 1];
      } else {
        assert s[2 * j + 1] == b[2 * (j - |a| / 2) + 1];
      }
    }
  }

  /** Processing frames in two calls is processing them in one. */
  lemma SplitIndependent(right: seq<int>, a: seq<int>, b: seq<int>, j: nat, started: bool, d: nat, vol: nat)
    requires d > 0 && |a| % 2 == 0
    ensures 2 * j < |a| ==> Voice(right, a + b, j, started, d, vol) == Voice(right, a, j, started, d, vol)
    ensures 2 * j < |b| ==>
      Voice(right, a + b, |a| / 2 + j, started, d, vol) == Voice(right + Rights(a), b, j, started, d, vol)
  {
    if 2 * j < |a| {
      assert (a + b)[..2 * j] == a[..2 * j];
    }
    if 2 * j < |b| {
      assert (a + b)[..|a| + 2 * j] == a + b[..2 * j];
      RightsCat(a, b[..2 * j]);
      assert right + (Rights(a) + Rights(b[..2 * j])) == right + Rights(a) + Rights(b[..2 * j]);
    }
  }

  // ----- the circular buffer -----

  /** Entry `j` of the delay line of `len + 1` entries, the oldest first: from the cursor downwards and around. */
  function At(b: seq<int>, op: nat, len: nat, j: nat): int
    requires op <= len < |b| && j <= len
  {
    if j <= op then b[op - j] else b[op + len + 1 - j]
  }

  /** The line holds what the last `len + 1` frames put there. */
  ghost predicate Holds(b: seq<int>, op: nat, len: nat, right: seq<int>)
    requires op <= len < |b|
  {
    forall j {:trigger At(b, op, len, j)} | 0 <= j <= len ::
      At(b, op, len, j) == Memory(right, |right| - (len + 1) + j, len + 1)
  }

  function Below(op: nat, len: nat): (r: nat)
    ensures op <= len ==> r <= len
  {
    if op == 0 then len else op - 1
  }

  /** Overwriting the oldest entry and stepping down drops it and appends the new one. */
  lemma Shift(b: seq<int>, op: nat, len: nat, x: int)
    requires op <= len < |b|
    ensures forall j {:trigger At(b[op := x], Below(op, len), len, j)} | 0 <= j < len ::
      At(b[op := x], Below(op, len), len, j) == At(b, op, len, j + 1)
    ensures At(b[op := x], Below(op, len), len, len) == x
  {
  }

  lemma HoldsNext(b: seq<int>, op: nat, len: nat, right: seq<int>, r: int)
    requires op <= len < |b| && Holds(b, op, len, right)
    ensures b[op] == Delayed(right, len + 1)
    ensures Holds(b[op := Clamp(Delayed(right, len + 1) / 2 + r)], Below(op, len), len, right + [r])
  {
    hide Clamp;
    var x := Clamp(Delayed(right, len + 1) / 2 + r);
    var c, op', more := b[op := x], Below(op, len), right + [r];
    assert b[op] == At(b, op, len, 0);
    Shift(b, op, len, x);
    forall j | 0 <= j <= len
      ensures At(c, op', len, j) == Memory(more, |more| - (len + 1) + j, len + 1)
    {
      if j < len {
        assert At(c, op', len, j) == At(b, op, len, j + 1);
        MemoryPrefix(right, [r], |right| - (len + 1) + j + 1, len + 1);
      } else {
        MemoryPrefix(right, [r], |right| - (len + 1), len + 1);
      }
    }
  }

  lemma HoldsZero(b: seq<int>, len: nat)
    requires len < |b| && forall i :: 0 <= i <= len ==> b[i] == 0
    ensures Holds(b, len, len, [])
  {
  }

  // ----- the state -----

  lemma EchoTimeFits(t: nat)
    requires t < 0x1000_0000
    ensures EchoTime(t) == if t < 2 then 6 else U32(6 + U32(t * 2) + t)
  {
  }

  lemma ProductFits(freq: nat, time: nat)
    requires freq <= 44100 && time <= 1000
    ensures U32(freq * time) == freq * time
  {
    MulUp(freq, time, 1000);
  }

  /** The delay, in milliseconds, that a setting asks for. */
  function EchoTime(setting: nat): nat {
    if setting < 2 then 6 else 6 + 3 * setting
  }

  class DelayLine {
    const fifo: array<int>
    var op: nat
    var audioFreq: nat
    var sampleLen: nat
    var sampleTime: nat
    var maxSampleTime: nat
    var sampleTimeAdc: nat
    var decayValue: nat
    var decayValueAdc: nat
    var started: bool
    var micVol: nat
    var pcmVol: nat
    ghost var right: seq<int>    // the right samples since the line was cleared

    ghost function D(): nat
      reads this`sampleLen
    {
      sampleLen + 1
    }

    /** The cursor is in the line, and the line holds what the last frames put there. */
    ghost predicate Valid()
      reads this, fifo
    {
      && fifo.Length == FIFO_SIZE && op <= sampleLen < FIFO_SIZE && audioFreq <= 44100
      && micVol < 0x10000 && pcmVol < 0x10000
      && (!started ==> right == [])
      && Holds(fifo[..], op, sampleLen, right)
    }

    // ----- configuration -----

    /** `SDLY_MEMSET(fifo, 0, sizeof(int16_t) * n)` */
    method Clear(n: nat)
      requires fifo.Length == FIFO_SIZE && n <= FIFO_SIZE
      modifies fifo
      ensures forall i :: 0 <= i < n ==> fifo[i] == 0
      ensures forall i :: n <= i < FIFO_SIZE ==> fifo[i] == old(fifo[i])
    {
      forall i | 0 <= i < n {
        fifo[i] := 0;
      }
    }

    /** `sdly_config` */
    method Config(freq: nat)
      requires fifo.Length == FIFO_SIZE && micVol < 0x10000 && pcmVol < 0x10000
      modifies this`op, this`audioFreq, this`sampleLen, this`sampleTime, this`maxSampleTime, this`started, this`right,
        fifo
      ensures Valid() && !started && op == sampleLen
      ensures if freq == 8000 then audioFreq == 8000 && sampleLen == 1440 else audioFreq == 44100 && sampleLen == 7938
    {
      if freq == 8000 {
        Clear(FIFO_SIZE_8K);
        maxSampleTime := (FIFO_SIZE_8K - 1) * ONE_S / 8000;
        sampleTime := MAX_TIME_8K;
        audioFreq := 8000;
        sampleLen := 8000 * sampleTime / ONE_S;
      } else {
        Clear(FIFO_SIZE);
        maxSampleTime := (FIFO_SIZE - 1) * ONE_S / 44100;
        sampleTime := MAX_TIME;
        audioFreq := 44100;
        sampleLen := 44100 * sampleTime / ONE_S;
      }
      op := sampleLen;
      started := false;
      right := [];
      HoldsZero(fifo[..], sampleLen);
    }

    /** The line is cleared and the cursor put to its end. */
    method Restart()
      requires fifo.Length == FIFO_SIZE && sampleLen < FIFO_SIZE && audioFreq <= 44100
      requires micVol < 0x10000 && pcmVol < 0x10000
      modifies this`op, this`right, fifo
      ensures Valid() && right == [] && op == sampleLen
    {
      Clear(sampleLen + 1);
      op := sampleLen;
      right := [];
      HoldsZero(fifo[..], sampleLen);
    }

    /** `sdly_start_play` */
    method StartPlay()
      requires Valid()
      modifies this`op, this`right, this`started, fifo
      ensures Valid() && started && right == []
    {
      Restart();
      started := true;
    }

    /** `sdly_change_sample_time_byadc`; the arithmetic is that of 32-bit unsigned registers. */
    method ChangeSampleTime(time: nat)
      requires Valid() && time < 0x1_0000_0000
      modifies this`op, this`sampleLen, this`sampleTime, this`sampleTimeAdc, this`right, fifo
      ensures Valid() && started == old(started)
      ensures if old(sampleTimeAdc) == time / 16 then right == old(right) && sampleLen == old(sampleLen)
              else right == [] && (audioFreq == 8000 ==> sampleLen < FIFO_SIZE_8K)
      ensures old(sampleTimeAdc) != time / 16 ==>
        var longest, size := if audioFreq == 8000 then MAX_TIME_8K
          else MAX_TIME, if audioFreq == 8000 then FIFO_SIZE_8K else FIFO_SIZE;
        var wanted := EchoTime(time / 16);
        && sampleTimeAdc == time / 16 && sampleTime == Min(wanted, longest)
        && sampleLen == Min(U32(audioFreq * wanted) / ONE_S, size - 1)
    {
      hide Holds, U32;
      var t := time / 16;
      if sampleTimeAdc == t {
        return;
      }
      EchoTimeFits(t);
      sampleTimeAdc := t;
      sampleTime := if t < 2 then 6 else U32(6 + U32(t * 2) + t);
      sampleLen := U32(audioFreq * sampleTime) / ONE_S;
      if audioFreq == 8000 {
        if sampleTime > MAX_TIME_8K { sampleTime := MAX_TIME_8K; }
        if sampleLen >= FIFO_SIZE_8K { sampleLen := FIFO_SIZE_8K - 1; }
      } else {
        if sampleTime > MAX_TIME { sampleTime := MAX_TIME; }
        if sampleLen >= FIFO_SIZE { sampleLen := FIFO_SIZE - 1; }
      }
      Restart();
    }

    /** `sdly_set_sample_vol` */
    method SetSampleVol(vol: nat)
      requires Valid() && vol < 256
      modifies this`op, this`sampleLen, this`sampleTime, this`sampleTimeAdc, this`decayValue, this`decayValueAdc
      modifies this`right, fifo
      ensures Valid() && started == old(started)
      ensures if old(sampleTimeAdc) == vol || old(decayValueAdc) == vol then
                right == old(right) && sampleLen == old(sampleLen) && decayValue == old(decayValue)
              else
                && right == [] && sampleTimeAdc == decayValueAdc == vol && sampleTime == EchoTime(vol)
                && sampleLen == Min(audioFreq * EchoTime(vol) / ONE_S, FIFO_SIZE - 1)
                && decayValue == if vol == 0 then 1 else 3 * vol / 2
    {
      hide Holds, U32;
      EchoTimeFits(vol);
      ProductFits(audioFreq, EchoTime(vol));
      if sampleTimeAdc == vol || decayValueAdc == vol {
        return;
      }
      sampleTimeAdc, decayValueAdc := vol, vol;
      sampleTime := if vol < 2 then 6 else U32(6 + U32(vol * 2) + vol);
      sampleLen := U32(audioFreq * sampleTime) / ONE_S;
      if sampleLen >= FIFO_SIZE {
        sampleLen := FIFO_SIZE - 1;
      }
      Restart();
      decayValue := if vol == 0 then 1 else vol + vol / 2;
    }

    // ----- a frame -----

    /** What the line gives to the next frame. */
    ghost function Echo(): int
      reads this
    {
      if started then Delayed(right, D()) else 0
    }

    /** One stereo frame through the line. */
    method Frame(l: int, r: int) returns (y: int)
      requires Valid() && InInt16(l) && InInt16(r)
      modifies this`op, this`right, fifo
      ensures Valid() && y == Amplify(old(Echo()) + l, micVol)
      ensures right == if started then old(right) + [r] else []
    {
      hide Memory, Delayed, At, Holds;
      ghost var b := fifo[..];
      HoldsNext(b, op, sampleLen, right, r);
      var v := fifo[op];
      var mixed := Clamp((if started then v / 2 else 0) + r);
      y := Amplify(v + l, micVol);
      EmptyLine(right, D());
      if started {
        fifo[op] := mixed;
        op := if op == 0 then sampleLen else op - 1;
        right := right + [r];
        assert fifo[..] == b[old(op) := mixed];
      }
    }

    /** Frame `i / 2` of `s`, the earlier ones having gone through the line. */
    method FrameOf(l: int, r: int, i: nat, ghost s: seq<int>, ghost before: seq<int>) returns (y: int)
      requires Valid() && i % 2 == 0 && i + 1 < |s| && l == s[i] && r == s[i + 1] && InInt16(l) && InInt16(r)
      requires right == if started then before + Rights(s[..i]) else []
      modifies this`op, this`right, fifo
      ensures Valid() && y == Voice(before, s, i / 2, started, D(), micVol)
      ensures right == if started then before + Rights(s[..i + 2]) else []
    {
      hide Memory, Delayed, At, Holds, Rights, Amplify;
      RightsNext(s, i);
      Seqs.Assoc(before, Rights(s[..i]), [r]);
      y := Frame(l, r);
    }

    lemma Unstarted()
      requires Valid()
      ensures !started ==> right == []
    {
    }

    /**
     `sdly_mixer_single_playing`: both channels get the voice with its echo.  Of an odd number of words the last one is
     played with the word behind it; a larger number than this overflows the 16-bit index.
     */
    method SinglePlaying(sample: array<int>, n: nat)
      requires Valid() && sample != fifo && Rounded(n) <= sample.Length && n < 0x7FFF
      requires Samples(sample[..Rounded(n)])
      modifies this`op, this`right, fifo, sample
      ensures Valid() && right == if started then old(right) + Rights(old(sample[..Rounded(n)])) else []
      ensures Voiced(sample[..], old(sample[..]), old(right), Rounded(n) / 2, started, D(), micVol)
      ensures sample[Rounded(n)..] == old(sample[Rounded(n)..])
    {
      hide DelayLine.Valid;
      hide Memory, Delayed, At, Holds, Rights, Amplify, Voice, Voiced, Samples;
      ghost var s, before, k := sample[..], right, 0;
      NoFrames(before, s);
      Unstarted();
      NoneVoiced(s, before, started, D(), micVol);
      var i := 0;
      while i < n
        invariant i == 2 * k <= Rounded(n) && Valid()
        invariant right == if started then before + Rights(s[..i]) else []
        invariant Voiced(sample[..], s, before, k, started, D(), micVol)
        invariant sample[i..] == s[i..]
      {
        ghost var c := sample[..];
        SameFrame(c, s, i);
        SampleAt(s[..Rounded(n)], i);
        var y := FrameOf(sample[i], sample[i + 1], i, s, before);
        VoicedNext(c, s, before, k, started, D(), micVol, y);
        sample[i] := y;
        sample[i + 1] := y;
        assert sample[..] == c[i := y][i + 1 := y];
        i, k := i + 2, k + 1;
      }
    }

    /** `sdly_mixer_multi_playing`: the voice with its echo is mixed into the music, in the same frames. */
    method MultiPlaying(adc: array<int>, audio: array<int>, n: nat)
      requires Valid() && adc != fifo && audio != fifo && audio != adc
      requires n < 0x7FFF && Rounded(n) <= adc.Length && Rounded(n) <= audio.Length
      requires Samples(adc[..Rounded(n)])
      modifies this`op, this`right, fifo, audio
      ensures Valid() && right == if started then old(right) + Rights(adc[..Rounded(n)]) else []
      ensures Blended(audio[..], old(audio[..]), adc[..Rounded(n)], old(right), Rounded(n) / 2, started, D(), micVol,
        pcmVol)
      ensures audio[Rounded(n)..] == old(audio[Rounded(n)..])
    {
      hide DelayLine.Valid;
      hide Memory, Delayed, At, Holds, Rights, Amplify, Voice, Blended, Blend, Samples;
      ghost var s, t, before, k := adc[..Rounded(n)], audio[..], right, 0;
      NoFrames(before, s);
      Unstarted();
      NoneBlended(t, s, before, started, D(), micVol, pcmVol);
      var i := 0;
      while i < n
        invariant i == 2 * k <= Rounded(n) && Valid() && adc[..Rounded(n)] == s
        invariant right == if started then before + Rights(s[..i]) else []
        invariant Blended(audio[..], t, s, before, k, started, D(), micVol, pcmVol)
        invariant audio[i..] == t[i..]
      {
        SameFrame(audio[..], t, i);
        assert adc[i] == s[i] && adc[i + 1] == s[i + 1];
        SampleAt(s, i);
        ghost var c := audio[..];
        var y := FrameOf(adc[i], adc[i + 1], i, s, before);
        var l, r := Blend(audio[i], y, pcmVol), Blend(audio[i + 1], y, pcmVol);
        audio[i] := l;
        audio[i + 1] := r;
        assert audio[..] == c[i := l][i + 1 := r];
        BlendedNext(c, t, s, before, k, started, D(), micVol, pcmVol, y);
        i, k := i + 2, k + 1;
      }
      assert s[..i] == s;
    }
  }

  /** The words of the frames that `n` words are in. */
  function Rounded(n: nat): nat {
    2 * ((n + 1) / 2)
  }

  /** The first `n` frames of `c` are those of `s` with their echo, on both channels. */
  ghost predicate Voiced(c: seq<int>, s: seq<int>, before: seq<int>, n: nat, started: bool, d: nat, vol: nat) {
    && d > 0 && 2 * n <= |s| == |c|
    && forall j | 0 <= j < n :: c[2 * j] == c[2 * j + 1] == Voice(before, s, j, started, d, vol)
  }

  /** The first `n` frames of `c` are those of the music `t` with the frames of `s` and their echo. */
  ghost predicate Blended(c: seq<int>, t: seq<int>, s: seq<int>, before: seq<int>, n: nat, started: bool, d: nat,
                          vol: nat, pcm: nat)
  {
    && d > 0 && 2 * n <= |s| <= |t| == |c|
    && forall j | 0 <= j < n ::
         && c[2 * j] == Blend(t[2 * j], Voice(before, s, j, started, d, vol), pcm)
         && c[2 * j + 1] == Blend(t[2 * j + 1], Voice(before, s, j, started, d, vol), pcm)
  }

  lemma NoneVoiced(s: seq<int>, before: seq<int>, started: bool, d: nat, vol: nat)
    requires d > 0
    ensures Voiced(s, s, before, 0, started, d, vol)
  {
  }

  lemma NoneBlended(t: seq<int>, s: seq<int>, before: seq<int>, started: bool, d: nat, vol: nat, pcm: nat)
    requires d > 0 && |s| <= |t|
    ensures Blended(t, t, s, before, 0, started, d, vol, pcm)
  {
  }

  lemma SameFrame(c: seq<int>, s: seq<int>, i: nat)
    requires |c| == |s| && i + 1 < |s| && c[i..] == s[i..]
    ensures c[i] == s[i] && c[i + 1] == s[i + 1]
  {
    assert c[i..][0] == s[i..][0] && c[i..][1] == s[i..][1];
  }

  lemma SampleAt(w: seq<int>, i: nat)
    requires Samples(w) && i + 1 < |w|
    ensures InInt16(w[i]) && InInt16(w[i + 1])
  {
  }

  lemma Step2(c: seq<int>, s: seq<int>, i: nat, x: int, y: int)
    requires |c| == |s| && i + 1 < |s| && c[i..] == s[i..]
    ensures c[i := x][i + 1 := y][i + 2..] == s[i + 2..]
  {
    assert c[i + 2..] == c[i..][2..] && s[i + 2..] == s[i..][2..];
  }

  lemma VoicedNext(c: seq<int>, s: seq<int>, before: seq<int>, n: nat, started: bool, d: nat, vol: nat, y: int)
    requires Voiced(c, s, before, n, started, d, vol) && 2 * n + 1 < |s| && c[2 * n..] == s[2 * n..]
    requires y == Voice(before, s, n, started, d, vol)
    ensures var e := c[2 * n := y][2 * n + 1 := y];
      Voiced(e, s, before, n + 1, started, d, vol) && e[2 * n + 2..] == s[2 * n + 2..]
  {
    hide Voice;
    Step2(c, s, 2 * n, y, y);
  }

  lemma BlendedNext(c: seq<int>, t: seq<int>, s: seq<int>, before: seq<int>, n: nat, started: bool, d: nat, vol: nat,
                    pcm: nat, y: int)
    requires Blended(c, t, s, before, n, started, d, vol, pcm) && 2 * n + 1 < |s| && c[2 * n..] == t[2 * n..]
    requires y == Voice(before, s, n, started, d, vol)
    ensures var e := c[2 * n := Blend(c[2 * n], y, pcm)][2 * n + 1 := Blend(c[2 * n + 1], y, pcm)];
      Blended(e, t, s, before, n + 1, started, d, vol, pcm) && e[2 * n + 2..] == t[2 * n + 2..]
  {
    hide Voice, Blend;
    SameFrame(c, t, 2 * n);
    Step2(c, t, 2 * n, Blend(c[2 * n], y, pcm), Blend(c[2 * n + 1], y, pcm));
  }

  /** Music at its volume, and the voice. */
  function Blend(x: int, y: int, vol: nat): (r: int)
    ensures InInt16(r)
  {
    Clamp(Wrap32(x * vol) / 16 + y)
  }

  /** The music never overflows: what is mixed is exact. */
  lemma BlendExact(x: int, y: int, vol: nat)
    requires InInt16(x) && vol < 0x10000
    ensures Blend(x, y, vol) == Clamp(x * vol / 16 + y)
  {
    MusicFits(x, vol);
    WrapSame(x * vol);
  }

  /** The mixed sample is the 16-bit value nearest to the sum of the music at its volume and the voice. */
  lemma BlendNearest(x: int, y: int, vol: nat)
    requires InInt16(x) && vol < 0x10000
    ensures var exact := x * vol / 16 + y;
      InInt16(Blend(x, y, vol)) && forall z :: InInt16(z) ==> Dist(Blend(x, y, vol), exact) <= Dist(z, exact)
  {
    BlendExact(x, y, vol);
    Saturates(x * vol / 16 + y);
    hide Clamp, Blend;
  }

  /** What the calls leave in their buffers: on both channels of frame `j` its voice, alone or with the music. */
  lemma FramesAre(c: seq<int>, t: seq<int>, s: seq<int>, before: seq<int>, n: nat, started: bool, d: nat, vol: nat,
                  pcm: nat, j: nat)
    requires j < n
    ensures Voiced(c, s, before, n, started, d, vol) ==>
      d > 0 && 2 * j + 1 < |c| && 2 * j < |s| && c[2 * j] == c[2 * j + 1] == Voice(before, s, j, started, d, vol)
    ensures Blended(c, t, s, before, n, started, d, vol, pcm) ==>
      && d > 0 && 2 * j + 1 < |c| == |t| && 2 * j < |s|
      && c[2 * j] == Blend(t[2 * j], Voice(before, s, j, started, d, vol), pcm)
      && c[2 * j + 1] == Blend(t[2 * j + 1], Voice(before, s, j, started, d, vol), pcm)
  {
    hide Voice, Blend;
  }

  lemma NoFrames(before: seq<int>, s: seq<int>)
    ensures before + Rights(s[..0]) == before
  {
  }

  lemma RightsNext(s: seq<int>, i: nat)
    requires i + 1 < |s| && i % 2 == 0
    ensures Rights(s[..i + 2]) == Rights(s[..i]) + [s[i + 1]]
  {
    assert s[..i + 2] == s[..i] + [s[i], s[i + 1]];
    RightsCat(s[..i], [s[i], s[i + 1]]);
  }

  lemma EmptyLine(right: seq<int>, d: nat)
    requires d > 0
    ensures right == [] ==> Delayed(right, d) == 0
  {
  }
}
