/**
 What the control messages bring about over several turns of the mixer, and what
 the words it makes sound like.
 */
module MixerRuns {
  import opened Arith
  import opened AudioRing
  import opened AudioDac
  import opened MixerThread
  import SoundDelay

  /** What a turn is given. */
  datatype Input = Input(mic: seq<int>, stale: seq<int>, irq: Interrupts)

  predicate InputOk(x: Input) {
    |x.stale| == BLOCK && SoundDelay.Samples(x.stale)
  }

  /**
   A playing mixer is told to mix music, and then gets some: the first turn mixes what music there was, the second turn
   mixes what is left of it with the new music behind it.
   */
  method MusicStarts(m: Mixer, x: Input, y: Input, ghost ptr: int, ghost data: seq<int>)
    returns (first: seq<int>, words: seq<int>, sent: bool, more: bool, free: nat, ghost o: seq<int>,
      ghost gone: seq<int>)
    requires m.Valid() && m.Owned(multiset{}) && !m.paused && InputOk(x) && InputOk(y)
    requires m.messages == [SrcFlow, Data(ptr, data)]
    modifies m, m.audio, m.audio.list, m.audio.list.node, m.audio.fifo, m.delay, m.delay.fifo
    ensures m.Valid() && m.Owned(multiset{}) && m.messages == [] && m.isMux && !m.paused
    ensures |first| <= |old(Stream(m.music))|
    ensures var tune := old(Stream(m.music))[|first|..] + data;
      && |words| <= |tune| && Stream(m.music) == tune[|words|..]
      && (words == [] || |words| == Min(|y.mic|, Min(|tune|, BLOCK)))
      && (free >= 2 && y.mic != [] && tune != [] ==> words != [])
      && (words != [] ==>
            Mixed(words, tune, o, gone, m.delay.started, m.delay.D(), m.delay.micVol, m.delay.pcmVol))
    ensures m.audio.accepted == old(m.audio.accepted) + (if sent then WordBytes(first) else [])
      + if more then WordBytes(words) else []
  {
    hide Mixer.Valid, Mixer.Owned, Stream, Mixed, Heard, Echoed, SoundDelay.Samples, WordBytes;
    ghost var tune := Stream(m.music);
    first, sent, o := m.Turn(x.mic, x.stale, x.irq);
    free := |m.poolFree|;
    gone := m.delay.right;
    assert m.messages == [Data(ptr, data)];
    words, more, o := m.Turn(y.mic, y.stale, y.irq);
  }

  /** A playing mixer is told to mix no music: there is none left, and what is made is the microphone alone. */
  method MusicStops(m: Mixer, x: Input) returns (words: seq<int>, free: nat, ghost o: seq<int>)
    requires m.Valid() && m.Owned(multiset{}) && !m.paused && InputOk(x) && m.messages == [SrcStatic]
    modifies m, m.audio, m.audio.list, m.audio.list.node, m.audio.fifo, m.delay, m.delay.fifo
    ensures m.Valid() && m.Owned(multiset{}) && m.messages == [] && !m.isMux && !m.paused && Stream(m.music) == []
    ensures words == [] || |words| == Min(|x.mic|, BLOCK)
    ensures free == |old(m.poolFree)| && (free >= 2 && x.mic != [] ==> words != [])
    ensures words != [] ==> Echoed(words, o, old(m.delay.right), m.delay.started, m.delay.D(), m.delay.micVol)
  {
    hide Mixer.Valid, Mixer.Owned, Stream, Mixed, Heard, Echoed, SoundDelay.Samples;
    var sent;
    free := |m.poolFree|;
    words, sent, o := m.Turn(x.mic, x.stale, x.irq);
  }

  /** Music that comes while none is mixed in is lost. */
  method MusicLost(m: Mixer, x: Input, ghost ptr: int, ghost data: seq<int>) returns (words: seq<int>)
    requires m.Valid() && m.Owned(multiset{}) && !m.isMux && InputOk(x) && m.messages == [Data(ptr, data)]
    modifies m, m.audio, m.audio.list, m.audio.list.node, m.audio.fifo, m.delay, m.delay.fifo
    ensures m.Valid() && m.Owned(multiset{}) && m.messages == [] && !m.isMux && Stream(m.music) == old(Stream(m.music))
  {
    hide Mixer.Valid, Mixer.Owned, Stream, Mixed, Heard, Echoed, SoundDelay.Samples;
    var sent; ghost var o;
    words, sent, o := m.Turn(x.mic, x.stale, x.irq);
  }

  /**
   The mixer is told to pause: the music is gone, the DAC is closed unless music was mixed in, and however many turns
   follow, no words are made and nothing is sent.
   */
  method Pauses(m: Mixer, x: Input, turns: seq<Input>)
    requires m.Valid() && m.Owned(multiset{}) && InputOk(x) && m.messages == [Pause]
    requires forall i :: 0 <= i < |turns| ==> InputOk(turns[i])
    modifies m, m.audio, m.audio.list, m.audio.list.node, m.audio.fifo, m.delay, m.delay.fifo
    ensures m.Valid() && m.Owned(multiset{}) && m.messages == [] && m.paused && m.isMux == old(m.isMux)
    ensures Stream(m.music) == [] && m.audio.isOpen == (old(m.isMux) && old(m.audio.isOpen))
    ensures old(m.isMux) ==> m.audio.accepted == old(m.audio.accepted)
  {
    hide Mixer.Valid, Mixer.Owned, Stream, Mixed, Heard, Echoed, SoundDelay.Samples;
    var words, sent; ghost var o;
    words, sent, o := m.Turn(x.mic, x.stale, x.irq);
    StaysSilent(m, turns);
  }

  /** A paused mixer that gets no message makes no words, and the DAC accepts no bytes. */
  method StaysSilent(m: Mixer, turns: seq<Input>)
    requires m.Valid() && m.Owned(multiset{}) && m.paused && m.messages == []
    requires forall i :: 0 <= i < |turns| ==> InputOk(turns[i])
    modifies m, m.audio, m.audio.list, m.audio.list.node, m.audio.fifo, m.delay, m.delay.fifo
    ensures m.Valid() && m.Owned(multiset{}) && m.messages == [] && m.paused && m.isMux == old(m.isMux)
    ensures Stream(m.music) == old(Stream(m.music))
    ensures m.audio.isOpen == old(m.audio.isOpen) && m.audio.accepted == old(m.audio.accepted)
  {
    hide Mixer.Owned, Stream, Mixed, Heard, Echoed, SoundDelay.Samples;
    var i := 0;
    while i < |turns|
      invariant m.Valid() && m.Owned(multiset{}) && m.messages == [] && m.paused && m.isMux == old(m.isMux)
      invariant Stream(m.music) == old(Stream(m.music))
      invariant m.audio.isOpen == old(m.audio.isOpen) && m.audio.accepted == old(m.audio.accepted)
    {
      assert InputOk(turns[i]);
      var words, sent; ghost var o;
      words, sent, o := m.Turn(turns[i].mic, turns[i].stale, turns[i].irq);
      i := i + 1;
    }
  }

  /** A paused mixer that is told to play makes words again: the microphone, or what music there is. */
  method Resumes(m: Mixer, x: Input) returns (words: seq<int>, free: nat, ghost o: seq<int>)
    requires m.Valid() && m.Owned(multiset{}) && m.paused && InputOk(x) && m.messages == [Replay]
    modifies m, m.audio, m.audio.list, m.audio.list.node, m.audio.fifo, m.delay, m.delay.fifo
    ensures m.Valid() && m.Owned(multiset{}) && m.messages == [] && !m.paused && m.isMux == old(m.isMux)
    ensures free == |old(m.poolFree)| && m.audio.isOpen
    ensures free >= 2 && x.mic != [] && (m.isMux ==> old(Stream(m.music)) != []) ==> words != []
    ensures words != [] && !m.isMux ==>
      Echoed(words, o, old(m.delay.right), m.delay.started, m.delay.D(), m.delay.micVol)
  {
    hide Mixer.Owned, Stream, Mixed, Heard, Echoed, SoundDelay.Samples;
    var sent;
    free := |m.poolFree|;
    words, sent, o := m.Turn(x.mic, x.stale, x.irq);
  }

  /** The other messages that a paused mixer obeys open and close the DAC; a playing one takes a new sample rate. */
  method OtherMessages(m: Mixer, x: Input, msg: Message)
    requires m.Valid() && m.Owned(multiset{}) && InputOk(x) && m.messages == [msg]
    requires msg.SrcFlow? || msg.SrcStatic? || msg.SetRate?
    modifies m, m.audio, m.audio.list, m.audio.list.node, m.audio.fifo, m.delay, m.delay.fifo
    ensures m.Valid() && m.Owned(multiset{}) && m.messages == [] && m.paused == old(m.paused)
    ensures m.paused && msg.SrcFlow? ==> m.audio.isOpen && m.isMux == old(m.isMux)
    ensures m.paused && msg.SrcStatic? ==> !m.audio.isOpen && m.isMux == old(m.isMux)
    ensures m.rate == if msg.SetRate? && !m.paused then msg.rate else old(m.rate)
  {
    hide Mixer.Valid, Mixer.Owned, Stream, Mixed, Heard, Echoed, SoundDelay.Samples;
    var words, sent; ghost var o;
    words, sent, o := m.Turn(x.mic, x.stale, x.irq);
  }

  /** The sizes of the source. */
  lemma Sizes()
    ensures BLOCK == 512 && MUTE_SECTIONS == 40 && DEFAULT_RATE == 8000 && QUEUE == 10 && HALF == 1024
    ensures SoundDelay.FIFO_SIZE == 8641 && SoundDelay.FIFO_SIZE_8K == 1441
    ensures SoundDelay.MAX_TIME == 180 && SoundDelay.MAX_TIME_8K == 180
  {
  }

  // ----- what the words are -----

  /** Words written as bytes and read as samples are the same words. */
  lemma {:induction false} BytesBack(w: seq<int>)
    requires SoundDelay.Samples(w)
    ensures SamplesOf(WordBytes(w)) == w
    decreases |w|
  {
    hide SamplesOf, Sample;
    if w == [] {
      NoSamples();
    } else {
      BytesBack(w[1..]);
      SampleBack(w[0]);
      SamplesFirst(w[0] % 256, w[0] / 256 % 256, WordBytes(w[1..]));
      assert w == [w[0]] + w[1..];
    }
  }

  lemma NoSamples()
    ensures SamplesOf([]) == []
  {
  }

  lemma SamplesFirst(x: int, y: int, rest: seq<int>)
    ensures SamplesOf([x, y] + rest) == [Sample(x, y)] + SamplesOf(rest)
  {
    var b, s := [x, y] + rest, [Sample(x, y)] + SamplesOf(rest);
    forall i | 0 <= i < |b| / 2
      ensures SamplesOf(b)[i] == s[i]
    {
      if i > 0 {
        assert b[2 * i] == rest[2 * (i - 1)] && b[2 * i + 1] == rest[2 * (i - 1) + 1];
      }
    }
    hide Sample;
  }

  lemma SampleBack(x: int)
    requires SoundDelay.InInt16(x)
    ensures Sample(x % 256, x / 256 % 256) == x
  {
  }

  /** A sample is made of its bytes, the low one first: 34 12 is 0x1234, and FF FF is -1. */
  lemma LowFirst()
    ensures Sample(0x34, 0x12) == 0x1234 && Sample(0xFF, 0xFF) == -1 && Sample(0x00, 0x80) == -0x8000
    ensures WordBytes([0x1234]) == [0x34, 0x12]
  {
  }

  /** What is heard of the microphone: each whole sample on both channels, or silence in the first sections. */
  lemma HeardIs(o: seq<int>, mic: seq<int>, muted: bool)
    requires Heard(o, mic, muted)
    ensures muted ==> forall i :: 0 <= i < |mic| ==> o[i] == 0
    ensures !muted ==> forall j :: 0 <= j < |mic| / 2 ==> o[2 * j] == o[2 * j + 1] == Sample(mic[2 * j], mic[2 * j + 1])
  {
    if muted {
      forall i | 0 <= i < |mic|
        ensures o[i] == 0
      {
        assert o[i] == o[..|mic|][i];
      }
    } else {
      forall j | 0 <= j < |mic| / 2
        ensures o[2 * j] == o[2 * j + 1] == Sample(mic[2 * j], mic[2 * j + 1])
      {
        var s := Stereo(SamplesOf(mic));
        assert o[2 * j] == o[..2 * (|mic| / 2)][2 * j] == s[2 * j];
        assert o[2 * j + 1] == o[..2 * (|mic| / 2)][2 * j + 1] == s[2 * j + 1];
      }
    }
  }

  /** Each mixed word is the 16-bit value nearest to the music at its volume and the voice of its frame. */
  lemma MixedNearest(words: seq<int>, tune: seq<int>, o: seq<int>, before: seq<int>, started: bool, d: nat, vol: nat,
                     pcm: nat, i: nat)
    requires Mixed(words, tune, o, before, started, d, vol, pcm) && i < |words| && SoundDelay.Samples(tune)
    requires pcm < 0x10000
    ensures d > 0 && i < |tune| && 2 * (i / 2) < |o|
    ensures var exact := tune[i] * pcm / 16 + SoundDelay.Voice(before, o, i / 2, started, d, vol);
      SoundDelay.InInt16(words[i])
      && forall z :: SoundDelay.InInt16(z) ==> SoundDelay.Dist(words[i], exact) <= SoundDelay.Dist(z, exact)
  {
    hide SoundDelay.Voice, SoundDelay.Blend;
    SoundDelay.BlendNearest(tune[i], SoundDelay.Voice(before, o, i / 2, started, d, vol), pcm);
  }

  /** Both words of a frame are its voice. */
  lemma EchoedIs(words: seq<int>, o: seq<int>, before: seq<int>, started: bool, d: nat, vol: nat, i: nat)
    requires Echoed(words, o, before, started, d, vol) && i < |words|
    ensures d > 0 && 2 * (i / 2) < |o| && words[i] == SoundDelay.Voice(before, o, i / 2, started, d, vol)
  {
    hide SoundDelay.Voice;
  }
}
