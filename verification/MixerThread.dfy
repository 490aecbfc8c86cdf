/**
 The mixer: blocks of memory that travel from an application through a
 message queue, a music list and the ring of the DAC back to their pool, and
 the two ways of filling a block with sound.  Lengths are in 16-bit words.
 */
module MixerThread {
  import opened Arith
  import opened AudioRing
  import opened AudioDac
  import opened MixerDouble
  import SoundDelay

  const BLOCK: nat := 512
  const MUTE_SECTIONS: nat := 40
  const DEFAULT_RATE: nat := 8000

  datatype Message = Data(ptr: int, data: seq<int>) | SrcFlow | SrcStatic | SetRate(rate: nat) | Pause | Replay
  datatype MusicNode = MusicNode(ptr: int, data: seq<int>, usePos: nat)

  // ----- what the lists hold -----

  function MessagePtrs(q: seq<Message>): multiset<int> {
    if q == [] then multiset{} else (if q[0].Data? then multiset{q[0].ptr} else multiset{}) + MessagePtrs(q[1..])
  }

  function MusicPtrs(q: seq<MusicNode>): multiset<int> {
    if q == [] then multiset{} else multiset{q[0].ptr} + MusicPtrs(q[1..])
  }

  function NodePtrs(q: seq<DataNode>): multiset<int> {
    if q == [] then multiset{} else multiset{q[0].ptr} + NodePtrs(q[1..])
  }

  /** All places together. */
  function Sum(pool: multiset<int>, app: multiset<int>, held: multiset<int>, messages: multiset<int>,
               music: multiset<int>, ring: multiset<int>, local: multiset<int>): multiset<int>
  {
    pool + app + held + messages + music + ring + local
  }

  /** A local block may as well be in any other place. */
  lemma Settle(a: multiset<int>, b: multiset<int>, c: multiset<int>, d: multiset<int>, e: multiset<int>,
               f: multiset<int>, l: multiset<int>, p: multiset<int>)
    ensures var all := Sum(a, b, c, d, e, f, l + p);
      && Sum(a + p, b, c, d, e, f, l) == all && Sum(a, b + p, c, d, e, f, l) == all
      && Sum(a, b, c + p, d, e, f, l) == all && Sum(a, b, c, d + p, e, f, l) == all
      && Sum(a, b, c, d, e + p, f, l) == all && Sum(a, b, c, d, e, f + p, l) == all
  {
  }

  lemma Front(p: int, q: seq<int>)
    ensures multiset([p] + q) == multiset(q) + multiset{p}
  {
  }

  lemma {:induction false} MessagePtrsCat(p: seq<Message>, q: seq<Message>)
    ensures MessagePtrs(p + q) == MessagePtrs(p) + MessagePtrs(q)
  {
    if p == [] {
      assert p + q == q;
    } else {
      assert (p + q)[1..] == p[1..] + q;
      MessagePtrsCat(p[1..], q);
    }
  }

  lemma {:induction false} MusicPtrsCat(p: seq<MusicNode>, q: seq<MusicNode>)
    ensures MusicPtrs(p + q) == MusicPtrs(p) + MusicPtrs(q)
  {
    if p == [] {
      assert p + q == q;
    } else {
      assert (p + q)[1..] == p[1..] + q;
      MusicPtrsCat(p[1..], q);
    }
  }

  lemma {:induction false} NodePtrsCat(p: seq<DataNode>, q: seq<DataNode>)
    ensures NodePtrs(p + q) == NodePtrs(p) + NodePtrs(q)
  {
    if p == [] {
      assert p + q == q;
    } else {
      assert (p + q)[1..] == p[1..] + q;
      NodePtrsCat(p[1..], q);
    }
  }

  /** The music not yet used. */
  function Stream(q: seq<MusicNode>): seq<int> {
    if q == [] then []
    else (if q[0].usePos <= |q[0].data| then q[0].data[q[0].usePos..] else []) + Stream(q[1..])
  }

  /** No node that is used up. */
  predicate MusicOk(q: seq<MusicNode>) {
    forall i :: 0 <= i < |q| ==> q[i].usePos < |q[i].data|
  }

  lemma {:induction false} StreamCat(p: seq<MusicNode>, q: seq<MusicNode>)
    ensures Stream(p + q) == Stream(p) + Stream(q)
  {
    if p == [] {
      assert p + q == q;
    } else {
      assert (p + q)[1..] == p[1..] + q;
      StreamCat(p[1..], q);
    }
  }

  /** Words as the bytes of the device, the low one first. */
  function WordBytes(w: seq<int>): (b: seq<int>)
    ensures |b| == 2 * |w|
  {
    if w == [] then [] else [w[0] % 256, w[0] / 256 % 256] + WordBytes(w[1..])
  }

  // ----- the music list, mixer_music_src_get_data -----

  /** Part of the first node. */
  lemma StreamPart(q: seq<MusicNode>, n: nat)
    requires q != [] && q[0].usePos + n <= |q[0].data|
    ensures var r := [q[0].(usePos := q[0].usePos + n)] + q[1..];
      n <= |Stream(q)| && Stream(q)[..n] == q[0].data[q[0].usePos..q[0].usePos + n] && Stream(r) == Stream(q)[n..]
  {
    var node, rest := q[0].(usePos := q[0].usePos + n), Stream(q[1..]);
    var r := [node] + q[1..];
    assert r[1..] == q[1..] && r[0] == node;
    SplitFirst(q[0].data, q[0].usePos, n, rest);
  }

  lemma SplitFirst(d: seq<int>, pos: nat, n: nat, rest: seq<int>)
    requires pos + n <= |d|
    ensures var s := d[pos..] + rest; s[..n] == d[pos..pos + n] && s[n..] == d[pos + n..] + rest
  {
  }

  /** All of the first node. */
  lemma StreamFirst(q: seq<MusicNode>)
    requires q != [] && q[0].usePos <= |q[0].data|
    ensures var n := |q[0].data| - q[0].usePos;
      n <= |Stream(q)| && Stream(q)[..n] == q[0].data[q[0].usePos..] && Stream(q[1..]) == Stream(q)[n..]
  {
  }

  class Mixer {
    const audio: AudioCodec
    const delay: SoundDelay.DelayLine
    const own: set<int>               // the blocks of the mixer's own pool
    var poolFree: seq<int>
    var appFree: seq<int>             // the free blocks of the application's pool
    var held: seq<int>                // the blocks an application fills
    var messages: seq<Message>
    var music: seq<MusicNode>
    var isMux: bool
    var paused: bool
    var rate: nat                     // the sample rate
    var muteCount: nat
    var reported: nat                 // how many buffers the DAC has reported and the mixer has freed
    ghost var blocks: multiset<int>   // all blocks

    /** The blocks in the ring of the DAC. */
    ghost function InRing(): multiset<int>
      requires audio.list.Valid()
      reads this`reported, audio.list, audio.list.node
    {
      var all := audio.Reported();
      if reported <= |all| then NodePtrs(all[reported..]) else multiset{}
    }

    /**
     Every block is free, held, in a message, in the music list, in the ring or one of `local`, and in one place only.
     */
    ghost predicate Owned(local: multiset<int>)
      requires audio.list.Valid()
      reads this`poolFree, this`appFree, this`held, this`messages, this`music, this`blocks
      reads this`reported, audio.list, audio.list.node
    {
      Sum(multiset(poolFree), multiset(appFree), multiset(held), MessagePtrs(messages), MusicPtrs(music), InRing(),
        local)
      == blocks
    }

    ghost predicate Valid()
      reads this, audio, audio.list, audio.list.node, audio.fifo, delay, delay.fifo
    {
      && audio.Valid() && audio.list.Valid() && delay.Valid() && audio.fifo != delay.fifo
      && MusicOk(music) && reported <= |audio.list.completed| && (!paused ==> audio.isOpen)
      && forall b :: blocks[b] <= 1
    }

    constructor (audio: AudioCodec, delay: SoundDelay.DelayLine, own: set<int>, pool: seq<int>, app: seq<int>)
      requires audio.Valid() && delay.Valid() && audio.fifo != delay.fifo && audio.Reported() == [] && audio.isOpen
      requires forall b :: multiset(pool)[b] + multiset(app)[b] <= 1
      ensures Valid() && Owned(multiset{}) && blocks == multiset(pool) + multiset(app) && music == []
      ensures this.audio == audio && this.delay == delay && this.own == own
    {
      this.audio, this.delay, this.own := audio, delay, own;
      poolFree, appFree, held, messages, music := pool, app, [], [], [];
      isMux, paused, rate, muteCount, reported := false, false, DEFAULT_RATE, 0, 0;
      blocks := multiset(pool) + multiset(app);
    }

    /** `Settle` for the places of this mixer */
    lemma Local(local: multiset<int>, p: multiset<int>)
      requires audio.list.Valid()
      ensures var a, b, c, d, e, f := multiset(poolFree), multiset(appFree), multiset(held),
                                      MessagePtrs(messages), MusicPtrs(music), InRing();
        var all := Sum(a, b, c, d, e, f, local + p);
        && Sum(a + p, b, c, d, e, f, local) == all && Sum(a, b + p, c, d, e, f, local) == all
        && Sum(a, b, c + p, d, e, f, local) == all && Sum(a, b, c, d + p, e, f, local) == all
        && Sum(a, b, c, d, e + p, f, local) == all && Sum(a, b, c, d, e, f + p, local) == all
    {
      Settle(multiset(poolFree), multiset(appFree), multiset(held), MessagePtrs(messages), MusicPtrs(music), InRing(),
        local, p);
    }

    /** `rt_mp_free` */
    method Free(ptr: int, ghost local: multiset<int>)
      requires audio.list.Valid() && Owned(local + multiset{ptr})
      modifies this`poolFree, this`appFree
      ensures Owned(local)
      ensures |old(poolFree)| <= |poolFree|
    {
      hide AudioCodec.Valid, DataNodeList.Valid, SoundDelay.DelayLine.Valid;
      hide Sum, MessagePtrs, MusicPtrs, NodePtrs, Ring, Sound;
      Local(local, multiset{ptr});
      if ptr in own {
        Front(ptr, poolFree);
        poolFree := [ptr] + poolFree;
      } else {
        Front(ptr, appFree);
        appFree := [ptr] + appFree;
      }
    }

    /** `rt_mp_alloc` from the mixer's pool */
    method Alloc(ghost local: multiset<int>) returns (ok: bool, ptr: int)
      requires audio.list.Valid() && Owned(local)
      modifies this`poolFree
      ensures Owned(if ok then local + multiset{ptr} else local)
      ensures ok == (old(poolFree) != []) && (ok ==> poolFree == old(poolFree)[1..])
    {
      hide AudioCodec.Valid, DataNodeList.Valid, SoundDelay.DelayLine.Valid;
      hide Sum, MessagePtrs, MusicPtrs, NodePtrs, Ring, Sound;
      ok, ptr := poolFree != [], 0;
      if ok {
        ptr := poolFree[0];
        assert poolFree == [ptr] + poolFree[1..];
        Front(ptr, poolFree[1..]);
        poolFree := poolFree[1..];
        Local(local, multiset{ptr});
      }
    }

    /** `mixer_music_src_out` of the first node */
    method MusicOut(ghost local: multiset<int>)
      requires audio.list.Valid() && Owned(local) && music != []
      modifies this`music, this`poolFree, this`appFree
      ensures Owned(local) && music == old(music)[1..]
      ensures |old(poolFree)| <= |poolFree|
    {
      hide AudioCodec.Valid, DataNodeList.Valid, SoundDelay.DelayLine.Valid;
      hide Sum, MessagePtrs, MusicPtrs, NodePtrs, Ring, Sound;
      var ptr := music[0].ptr;
      FirstMusic(music);
      music := music[1..];
      Local(local, multiset{ptr});
      Free(ptr, local);
    }

    /** `mixer_music_src_in` */
    method MusicIn(ptr: int, data: seq<int>, ghost local: multiset<int>)
      requires audio.list.Valid() && Owned(local + multiset{ptr}) && MusicOk(music)
      modifies this`music, this`poolFree, this`appFree
      ensures Owned(local) && MusicOk(music)
      ensures Stream(music) == if isMux then old(Stream(music)) + data else old(Stream(music))
      ensures |old(poolFree)| <= |poolFree|
    {
      hide AudioCodec.Valid, DataNodeList.Valid, SoundDelay.DelayLine.Valid;
      hide Sum, MessagePtrs, MusicPtrs, NodePtrs, Ring, Sound, Stream;
      if |data| == 0 || !isMux {
        Free(ptr, local);
        assert old(Stream(music)) + [] == old(Stream(music));
      } else {
        var node := MusicNode(ptr, data, 0);
        MusicPtrsCat(music, [node]);
        StreamCat(music, [node]);
        OneNode(node);
        Local(local, multiset{ptr});
        music := music + [node];
      }
    }

    /** `mixer_music_src_flush` */
    method Flush(ghost local: multiset<int>)
      requires audio.list.Valid() && Owned(local)
      modifies this`music, this`poolFree, this`appFree
      ensures Owned(local) && music == []
      ensures |old(poolFree)| <= |poolFree|
    {
      while music != []
        invariant |old(poolFree)| <= |poolFree|
        invariant Owned(local)
        decreases |music|
      {
        MusicOut(local);
      }
    }

    /** `mixer_music_src_get_data_len` */
    method GetDataLen() returns (length: nat)
      requires MusicOk(music)
      ensures length == |Stream(music)|
    {
      length := 0;
      var i := 0;
      while i < |music|
        invariant i <= |music| && length + |Stream(music[i..])| == |Stream(music)|
      {
        StreamFirst(music[i..]);
        assert music[i..][1..] == music[i + 1..];
        length := length + |music[i].data| - music[i].usePos;
        i := i + 1;
      }
    }

    /** `rt_memcpy` */
    method CopyIn(buf: array<int>, at: nat, w: seq<int>)
      requires at + |w| <= buf.Length
      modifies buf
      ensures Copied(buf[..], old(buf[..]), at, w)
    {
      forall i | 0 <= i < |w| {
        buf[at + i] := w[i];
      }
    }

    /** `n` words of a first node that has more. */
    method TakePart(buf: array<int>, at: nat, n: nat, ghost local: multiset<int>)
      requires audio.list.Valid() && Owned(local) && MusicOk(music) && music != []
      requires at + n <= buf.Length && music[0].usePos + n < |music[0].data|
      modifies this`music, buf
      ensures Owned(local) && MusicOk(music) && |music| == |old(music)|
      ensures n <= |old(Stream(music))| && Stream(music) == old(Stream(music))[n..]
      ensures Copied(buf[..], old(buf[..]), at, old(Stream(music))[..n])
    {
      hide AudioCodec.Valid, DataNodeList.Valid, SoundDelay.DelayLine.Valid;
      hide Sum, MessagePtrs, MusicPtrs, NodePtrs, Ring, Sound, Unread, Flat, Stream, Copied;
      var node := music[0];
      StreamPart(music, n);
      CopyIn(buf, at, node.data[node.usePos..node.usePos + n]);
      FirstMusic(music);
      music := [node.(usePos := node.usePos + n)] + music[1..];
      FirstMusic(music);
    }

    /** All that the first node has; it leaves. */
    method TakeNode(buf: array<int>, at: nat, ghost local: multiset<int>) returns (count: nat)
      requires audio.list.Valid() && Owned(local) && MusicOk(music) && music != []
      requires at + |music[0].data| - music[0].usePos <= buf.Length
      modifies this`music, this`poolFree, this`appFree, buf
      ensures Owned(local) && MusicOk(music) && |music| < |old(music)|
      ensures count == |old(music)[0].data| - old(music)[0].usePos
      ensures count <= |old(Stream(music))| && Stream(music) == old(Stream(music))[count..]
      ensures Copied(buf[..], old(buf[..]), at, old(Stream(music))[..count])
    {
      hide AudioCodec.Valid, DataNodeList.Valid, SoundDelay.DelayLine.Valid;
      hide Sum, MessagePtrs, MusicPtrs, NodePtrs, Ring, Sound, Unread, Flat, Stream, Copied;
      var node := music[0];
      count := |node.data| - node.usePos;
      StreamFirst(music);
      CopyIn(buf, at, node.data[node.usePos..]);
      MusicOut(local);
    }

    /** What the first node has for `n` more words; a node that is used up leaves. */
    method TakeFirst(buf: array<int>, at: nat, n: nat, ghost local: multiset<int>) returns (count: nat)
      requires audio.list.Valid() && Owned(local) && MusicOk(music) && music != []
      requires at + n <= buf.Length
      modifies this`music, this`poolFree, this`appFree, buf
      ensures Owned(local) && MusicOk(music) && count <= n
      ensures count <= |old(Stream(music))| && Stream(music) == old(Stream(music))[count..]
      ensures Copied(buf[..], old(buf[..]), at, old(Stream(music))[..count])
      ensures |music| <= |old(music)| && (count == n || |music| < |old(music)|)
    {
      hide Mixer.Owned, AudioCodec.Valid, DataNodeList.Valid, SoundDelay.DelayLine.Valid;
      hide Sum, MessagePtrs, MusicPtrs, NodePtrs, Ring, Sound, Unread, Flat, Stream, Copied;
      count := |music[0].data| - music[0].usePos;
      if count > n {
        count := n;
        TakePart(buf, at, n, local);
      } else {
        count := TakeNode(buf, at, local);
      }
    }

    /** One turn of the loop. */
    method TakeMore(buf: array<int>, length: nat, expected: nat, ghost local: multiset<int>,
                    ghost b: seq<int>, ghost all: seq<int>) returns (more: nat)
      requires audio.list.Valid() && Owned(local) && MusicOk(music) && music != [] && length <= expected <= buf.Length
      requires Taken(music, buf[..], b, all, length)
      modifies this`music, this`poolFree, this`appFree, buf
      ensures Owned(local) && MusicOk(music) && length <= more <= expected
      ensures Taken(music, buf[..], b, all, more)
      ensures |music| <= |old(music)| && (more == expected || |music| < |old(music)|)
    {
      hide Mixer.Owned, AudioCodec.Valid, DataNodeList.Valid, SoundDelay.DelayLine.Valid;
      hide Sum, MessagePtrs, MusicPtrs, NodePtrs, Ring, Sound, Unread, Flat, Stream, Copied, MusicOk;
      ghost var c := buf[..];
      var count := TakeFirst(buf, length, expected - length, local);
      Take(all, length, count);
      CopiedMore(buf[..], c, b, 0, all, length, count);
      more := length + count;
    }

    /**
     `mixer_music_src_get_data`: exactly the first unread words, as many as there are up to `expected`; what is left
     stays in order, and no node that is used up stays in the list.
     */
    method GetData(buf: array<int>, expected: nat, ghost local: multiset<int>) returns (length: nat)
      requires audio.list.Valid() && Owned(local) && MusicOk(music) && expected <= buf.Length
      modifies this`music, this`poolFree, this`appFree, buf
      ensures Owned(local) && MusicOk(music) && length == Min(expected, |old(Stream(music))|)
      ensures Taken(music, buf[..], old(buf[..]), old(Stream(music)), length)
    {
      hide Mixer.Owned, AudioCodec.Valid, DataNodeList.Valid, SoundDelay.DelayLine.Valid;
      hide Sum, MessagePtrs, MusicPtrs, NodePtrs, Ring, Sound, Unread, Flat, Stream, Copied, MusicOk, Min, Taken;
      ghost var all, b := Stream(music), buf[..];
      length := 0;
      TakenNone(music, b);
      while music != [] && length < expected
        invariant Owned(local) && MusicOk(music) && length <= expected
        invariant Taken(music, buf[..], b, all, length)
        decreases |music|, expected - length
      {
        length := TakeMore(buf, length, expected, local, b, all);
      }
      TakenAll(music, buf[..], b, all, length);
    }

    // ----- the DAC -----

    /** The callbacks of the ring, `mixer_dac_write_done`: every buffer reported is freed. */
    method Callbacks(ghost local: multiset<int>)
      requires audio.list.Valid() && Owned(local) && reported <= |audio.list.completed|
      modifies this`reported, this`poolFree, this`appFree
      ensures Owned(local) && reported == |audio.list.completed|
      ensures |old(poolFree)| <= |poolFree|
    {
      hide Sum, MessagePtrs, MusicPtrs, NodePtrs, Ring, Sound;
      while reported < |audio.list.completed|
        invariant |old(poolFree)| <= |poolFree|
        invariant Owned(local) && reported <= |audio.list.completed|
      {
        var ptr := audio.list.completed[reported].ptr;
        NextNode(audio.Reported(), reported);
        reported := reported + 1;
        Local(local, multiset{ptr});
        Free(ptr, local);
      }
    }

    /** The block goes into the ring, if that takes it. */
    method Enqueue(ptr: int, bytes: seq<int>, ghost local: multiset<int>) returns (ok: bool)
      requires audio.Valid() && Owned(local + multiset{ptr}) && reported <= |audio.list.completed|
      modifies audio, audio.list, audio.list.node, audio.fifo
      ensures audio.Valid() && audio.list.Valid()
      ensures Owned(if ok then local else local + multiset{ptr}) && reported <= |audio.list.completed|
      ensures audio.isOpen == old(audio.isOpen)
      ensures audio.accepted == if ok then old(audio.accepted) + bytes else old(audio.accepted)
      ensures ok <==> |old(audio.list.Queue())| < audio.list.node.Length - 1
    {
      hide Sum, MessagePtrs, MusicPtrs, NodePtrs, Ring, Sound, Unread, Flat, Silent, Whole;
      ghost var all := audio.Reported();
      Local(local, multiset{ptr});
      ok := audio.Write(ptr, bytes);
      if ok {
        LastNode(all, reported, DataNode(ptr, bytes));
      }
    }

    /** `rt_device_write` of a block; a block that the ring does not take is freed. */
    method Send(ptr: int, words: seq<int>, ghost local: multiset<int>) returns (ok: bool)
      requires audio.Valid() && Owned(local + multiset{ptr}) && reported <= |audio.list.completed|
      modifies this`reported, this`poolFree, this`appFree
      modifies audio, audio.list, audio.list.node, audio.fifo
      ensures audio.Valid() && audio.list.Valid() && Owned(local) && reported == |audio.list.completed|
      ensures audio.isOpen == old(audio.isOpen)
      ensures audio.accepted == if ok then old(audio.accepted) + WordBytes(words) else old(audio.accepted)
      ensures ok <==> |old(audio.list.Queue())| < audio.list.node.Length - 1
    {
      hide Sum, MessagePtrs, MusicPtrs, NodePtrs, WordBytes, Mixer.Owned, AudioCodec.Valid, DataNodeList.Valid;
      ok := Enqueue(ptr, WordBytes(words), local);
      if !ok {
        Free(ptr, local);
      }
      Callbacks(local);
    }

    /** `dac_dma_half_handler` or `dac_dma_finish_handler`, and the callbacks it makes. */
    method Played(second: bool, ghost local: multiset<int>)
      requires Valid() && Owned(local) && !audio.paused
      modifies this`reported, this`poolFree, this`appFree
      modifies audio, audio.list, audio.list.node, audio.fifo
      ensures Valid() && Owned(local) && audio.accepted == old(audio.accepted)
      ensures |old(poolFree)| <= |poolFree| && |audio.list.Queue()| <= |old(audio.list.Queue())|
      ensures audio.isOpen == old(audio.isOpen)
    {
      hide Sum, MessagePtrs, MusicPtrs, NodePtrs, Ring, Sound, Unread, Flat, Silent, MusicOk;
      if second {
        audio.FinishHandler();
      } else {
        audio.HalfHandler();
      }
      Callbacks(local);
    }

    /** The halves that end while a thread works with the blocks `local`; the DMA reports none while it is paused. */
    method Interrupted(halves: seq<bool>, ghost local: multiset<int>)
      requires Valid() && Owned(local)
      modifies this`reported, this`poolFree, this`appFree
      modifies audio, audio.list, audio.list.node, audio.fifo
      ensures Valid() && Owned(local) && audio.accepted == old(audio.accepted)
      ensures |old(poolFree)| <= |poolFree| && |audio.list.Queue()| <= |old(audio.list.Queue())|
      ensures audio.isOpen == old(audio.isOpen)
    {
      hide Mixer.Owned, AudioCodec.Valid, DataNodeList.Valid, SoundDelay.DelayLine.Valid, Mixer.Valid;
      Listed();
      var i := 0;
      while i < |halves|
        invariant Valid() && audio.list.Valid() && Owned(local) && audio.accepted == old(audio.accepted)
        invariant audio.isOpen == old(audio.isOpen)
        invariant |old(poolFree)| <= |poolFree| && |audio.list.Queue()| <= |old(audio.list.Queue())|
      {
        if !audio.paused {
          Played(halves[i], local);
        }
        Listed();
        i := i + 1;
      }
    }

    lemma Listed()
      requires Valid()
      ensures audio.Valid() && audio.list.Valid()
    {
    }

    // ----- filling a block -----

    /** `sdly_forepart_mute`: the first sections are silent. */
    method Mute(a: array<int>, n: nat)
      requires n <= a.Length
      modifies this`muteCount, a
      ensures muteCount == if n > 0 && old(muteCount) <= MUTE_SECTIONS then old(muteCount) + 1 else old(muteCount)
      ensures a[..] == if old(muteCount) < MUTE_SECTIONS then Zeros(n) + old(a[n..]) else old(a[..])
    {
      if n == 0 {
        return;
      }
      if muteCount < MUTE_SECTIONS {
        muteCount := muteCount + 1;
        forall i | 0 <= i < n {
          a[i] := 0;
        }
      } else if muteCount == MUTE_SECTIONS {
        muteCount := muteCount + 1;
      }
    }

    /** A block, holding `stale`, with the bytes of the microphone read into its second half and the samples doubled. */
    method Doubling(mic: seq<int>, stale: seq<int>) returns (a: array<int>)
      requires |mic| <= BLOCK && |stale| == BLOCK && SoundDelay.Samples(stale)
      ensures fresh(a) && a.Length == BLOCK && SoundDelay.Samples(a[..]) && Frames(a[..], SamplesOf(mic))
    {
      hide Frames, SoundDelay.Samples, Doubled, Passes, SamplesOf, Sample;
      a := new int[BLOCK](i requires 0 <= i < BLOCK => stale[i]);
      assert a[..] == stale;
      var s := SamplesOf(mic);
      SamplesOfOk(mic);
      forall i | 0 <= i < |s| {
        a[BLOCK / 2 + i] := s[i];
      }
      ReadIn(a[..], stale, s);
      if |mic| % 2 == 1 {
        OddByte(a[..], mic[|mic| - 1]);
        a[BLOCK / 2 + |s|] := WithLow(a[BLOCK / 2 + |s|], mic[|mic| - 1]);
      }
      ghost var b := a[..];
      DoublePadding(a, BLOCK / 2, |s|);
      HalfBlock(b, BLOCK / 2, |s|);
      DoubledWords(a[..], b, s);
      PassesIn(b, BLOCK / 2, 0, |s|);
    }

    /** The same, muted at the beginning. */
    method Outside(mic: seq<int>, stale: seq<int>) returns (a: array<int>)
      requires |mic| <= BLOCK && |stale| == BLOCK && SoundDelay.Samples(stale)
      modifies this`muteCount
      ensures fresh(a) && a.Length == BLOCK && SoundDelay.Samples(a[..])
      ensures Rounded(|mic|) <= BLOCK && Heard(a[..Rounded(|mic|)], mic, old(muteCount) < MUTE_SECTIONS)
    {
      hide Frames, SoundDelay.Samples, Zeros, SamplesOf, Heard;
      a := Doubling(mic, stale);
      ghost var b := a[..];
      Mute(a, |mic|);
      MutedOrNot(a[..], b, mic, old(muteCount) < MUTE_SECTIONS);
    }

    /** The blocks that were allocated are given back. */
    method GiveBack(ok: bool, ptr: int, ghost local: multiset<int>)
      requires audio.list.Valid() && Owned(if ok then local + multiset{ptr} else local)
      modifies this`poolFree, this`appFree
      ensures Owned(local)
    {
      if ok {
        Free(ptr, local);
      }
    }

    /** Frames of microphone and music, blended; the music leaves the list. */
    method Blend(mic: seq<int>, stale: seq<int>, ghost local: multiset<int>)
        returns (words: seq<int>, ghost o: seq<int>)
      requires audio.list.Valid() && Owned(local) && MusicOk(music) && delay.Valid()
      requires |mic| <= BLOCK && |mic| <= |Stream(music)| && |stale| == BLOCK && SoundDelay.Samples(stale)
      modifies this`poolFree, this`appFree, this`music, this`muteCount, delay`op, delay`right, delay.fifo
      ensures Owned(local) && MusicOk(music) && delay.Valid() && |words| == |mic|
      ensures Stream(music) == old(Stream(music))[|mic|..] && Heard(o, mic, old(muteCount) < MUTE_SECTIONS)
      ensures Mixed(words, old(Stream(music)), o, old(delay.right), delay.started, delay.D(), delay.micVol,
        delay.pcmVol)
    {
      hide Mixer.Owned, AudioCodec.Valid, DataNodeList.Valid, SoundDelay.DelayLine.Valid;
      hide Sum, MessagePtrs, MusicPtrs, NodePtrs, Ring, Sound, Unread, Flat, Stream, MusicOk, Heard, Mixed;
      hide SoundDelay.Blended, SoundDelay.Holds, Doubled, Taken, Copied, SoundDelay.Samples, Frames;
      var n := |mic|;
      var outside := Outside(mic, stale);
      var inside := new int[BLOCK];
      ghost var b, all := inside[..], Stream(music);
      var length := GetData(inside, n, local);
      MusicTaken(music, inside[..], b, all, length);
      assert length == n;    // RT_ASSERT(inside_data_len == read_bytes)
      ghost var c, before := inside[..], delay.right;
      o := outside[..Rounded(n)];
      SoundDelay.SamplesPrefix(outside[..], Rounded(n));
      delay.MultiPlaying(outside, inside, n);
      words := inside[..n];
      MixedWords(inside[..], c, o, n, all, before, delay.started, delay.D(), delay.micVol, delay.pcmVol);
    }

    /** Two blocks, or none: a block alone is given back. */
    method AllocTwo() returns (ok: bool, p: int, q: int)
      requires audio.list.Valid() && Owned(multiset{})
      modifies this`poolFree, this`appFree
      ensures Owned(if ok then multiset{} + multiset{p} + multiset{q} else multiset{}) && (ok <==> |old(poolFree)| >= 2)
    {
      hide Mixer.Owned, AudioCodec.Valid, DataNodeList.Valid, SoundDelay.DelayLine.Valid;
      hide Sum, MessagePtrs, MusicPtrs, NodePtrs, Ring, Sound;
      var ok1, ok2;
      ok1, p := Alloc(multiset{});
      ghost var l1 := if ok1 then multiset{} + multiset{p} else multiset{};
      ok2, q := Alloc(l1);
      ok := ok1 && ok2;
      if !ok {
        GiveBack(ok2, q, l1);
        GiveBack(ok1, p, multiset{});
      }
    }

    /** The two blocks of `mixer_mux_acoustics` when there is music; the DMA may interrupt. */
    method MuxBlocks(mic: seq<int>, stale: seq<int>, outside: int, inside: int, irq: Interrupts)
      returns (words: seq<int>, sent: bool, ghost o: seq<int>)
      requires Valid() && Owned(multiset{} + multiset{outside} + multiset{inside}) && audio.isOpen
      requires |mic| <= BLOCK && |mic| <= |Stream(music)| && |stale| == BLOCK && SoundDelay.Samples(stale)
      modifies this`reported, this`poolFree, this`appFree, this`music, this`muteCount
      modifies audio, audio.list, audio.list.node, audio.fifo, delay`op, delay`right, delay.fifo
      ensures Valid() && Owned(multiset{}) && Stream(music) == old(Stream(music))[|mic|..] && |words| == |mic|
      ensures Heard(o, mic, old(muteCount) < MUTE_SECTIONS)
      ensures Mixed(words, old(Stream(music)), o, old(delay.right), delay.started, delay.D(), delay.micVol,
        delay.pcmVol)
      ensures audio.accepted == if sent then old(audio.accepted) + WordBytes(words) else old(audio.accepted)
      ensures  |old(audio.list.Queue())| < audio.list.node.Length - 1 ==> sent
    {
      hide Mixer.Owned, AudioCodec.Valid, DataNodeList.Valid, SoundDelay.DelayLine.Valid;
      hide Sum, MessagePtrs, MusicPtrs, NodePtrs, Ring, Sound, Unread, Flat, Stream, MusicOk, Silent, Whole;
      hide SoundDelay.Holds, SoundDelay.Samples, Heard, Mixed;
      Interrupted(irq.taken, multiset{} + multiset{outside} + multiset{inside});
      words, o := Blend(mic, stale, multiset{} + multiset{outside} + multiset{inside});
      Interrupted(irq.mixed, multiset{} + multiset{outside} + multiset{inside});
      Swap(outside, inside);
      Free(outside, multiset{} + multiset{inside});
      Interrupted(irq.freed, multiset{} + multiset{inside});
      sent := Send(inside, words, multiset{});
    }

    /**
     `mixer_mux_acoustics`; `mic` are the bytes the microphone has to give.  As many bytes are read as there are words
     of music, up to a block; the words made are sent to the DAC, or lost when its ring is full; exactly as much music
     as they hold has left the list.  When the number is odd, the last frame is made with what the block held before.
     */
    method Mux(mic: seq<int>, stale: seq<int>, irq: Interrupts) returns (words: seq<int>, sent: bool, ghost o: seq<int>)
      requires Valid() && Owned(multiset{}) && !paused && |stale| == BLOCK && SoundDelay.Samples(stale)
      modifies this`reported, this`poolFree, this`appFree, this`music, this`muteCount
      modifies audio, audio.list, audio.list.node, audio.fifo, delay`op, delay`right, delay.fifo
      ensures Valid() && Owned(multiset{})
      ensures |words| == if |old(poolFree)| < 2 then 0 else Min(|mic|, Min(|old(Stream(music))|, BLOCK))
      ensures Stream(music) == old(Stream(music))[|words|..]
      ensures words != [] ==> Heard(o, mic[..|words|], old(muteCount) < MUTE_SECTIONS)
      ensures words != [] ==>
        Mixed(words, old(Stream(music)), o, old(delay.right), delay.started, delay.D(), delay.micVol, delay.pcmVol)
      ensures audio.accepted == if sent then old(audio.accepted) + WordBytes(words) else old(audio.accepted)
      ensures words != [] && |old(audio.list.Queue())| < audio.list.node.Length - 1 ==> sent
    {
      hide Mixer.Owned, AudioCodec.Valid, DataNodeList.Valid, SoundDelay.DelayLine.Valid;
      hide Sum, MessagePtrs, MusicPtrs, NodePtrs, Ring, Sound, Unread, Flat, Stream, MusicOk, Silent, Whole;
      hide SoundDelay.Holds, SoundDelay.Samples, Min, Mixed, Heard, WordBytes;
      words, sent, o := [], false, [];
      assert Stream(music)[0..] == Stream(music);
      var ok, outside, inside := AllocTwo();
      if !ok {
        return;
      }
      var total := GetDataLen();
      var expected := Min(total, BLOCK);
      if expected == 0 {
        Free(inside, multiset{} + multiset{outside});
        Free(outside, multiset{});
        return;
      }
      words, sent, o := MuxBlocks(mic[..Min(|mic|, expected)], stale, outside, inside, irq);
    }

    /** `mixer_single_acoustics`: the microphone alone. */
    method Single(mic: seq<int>, stale: seq<int>, irq: Interrupts)
        returns (words: seq<int>, sent: bool, ghost o: seq<int>)
      requires Valid() && Owned(multiset{}) && !paused && |stale| == BLOCK && SoundDelay.Samples(stale)
      modifies this`reported, this`poolFree, this`appFree, this`muteCount
      modifies audio, audio.list, audio.list.node, audio.fifo, delay`op, delay`right, delay.fifo
      ensures Valid() && Owned(multiset{})
      ensures |words| == if old(poolFree) == [] then 0 else Min(|mic|, BLOCK)
      ensures words != [] ==> Heard(o, mic[..|words|], old(muteCount) < MUTE_SECTIONS)
      ensures words != [] ==> Echoed(words, o, old(delay.right), delay.started, delay.D(), delay.micVol)
      ensures audio.accepted == if sent then old(audio.accepted) + WordBytes(words) else old(audio.accepted)
      ensures words != [] && |old(audio.list.Queue())| < audio.list.node.Length - 1 ==> sent
    {
      hide Mixer.Owned, AudioCodec.Valid, DataNodeList.Valid, SoundDelay.DelayLine.Valid;
      hide Sum, MessagePtrs, MusicPtrs, NodePtrs, Ring, Sound, Unread, Flat, Stream, MusicOk, Silent, Whole;
      hide SoundDelay.Holds, SoundDelay.Samples, Min, Heard, Echoed, WordBytes;
      words, sent, o := [], false, [];
      var ok, block := Alloc(multiset{});
      if !ok {
        return;
      }
      var k := Min(|mic|, BLOCK);
      if k == 0 {
        Free(block, multiset{});
        return;
      }
      Interrupted(irq.taken, multiset{} + multiset{block});
      words, o := Echo(mic[..k], stale);
      Interrupted(irq.mixed, multiset{} + multiset{block});
      sent := Send(block, words, multiset{});
    }

    /** The microphone and its echo on both channels. */
    method Echo(mic: seq<int>, stale: seq<int>) returns (words: seq<int>, ghost o: seq<int>)
      requires delay.Valid() && |mic| <= BLOCK && |stale| == BLOCK && SoundDelay.Samples(stale)
      modifies this`muteCount, delay`op, delay`right, delay.fifo
      ensures delay.Valid() && |words| == |mic| && Heard(o, mic, old(muteCount) < MUTE_SECTIONS)
      ensures Echoed(words, o, old(delay.right), delay.started, delay.D(), delay.micVol)
    {
      hide SoundDelay.Voiced, SoundDelay.Holds, Doubled, SoundDelay.Samples, Frames, Heard, Echoed;
      var n := |mic|;
      var a := Outside(mic, stale);
      ghost var e, before := a[..], delay.right;
      o := a[..Rounded(n)];
      SoundDelay.SamplesPrefix(e, Rounded(n));
      delay.SinglePlaying(a, n);
      words := a[..n];
      EchoedWords(a[..], e, n, before, delay.started, delay.D(), delay.micVol);
    }

    // ----- the application -----

    /** The application takes a block of its pool. */
    method AppAlloc() returns (ok: bool, ptr: int)
      requires Valid() && Owned(multiset{})
      modifies this`appFree, this`held
      ensures Valid() && Owned(multiset{}) && (ok ==> ptr in held)
    {
      hide AudioCodec.Valid, DataNodeList.Valid, SoundDelay.DelayLine.Valid;
      hide Sum, MessagePtrs, MusicPtrs, NodePtrs, Ring, Sound, Unread, Flat, MusicOk, Silent;
      ok, ptr := appFree != [], 0;
      if ok {
        ptr := appFree[0];
        assert appFree == [ptr] + appFree[1..];
        Front(ptr, appFree[1..]);
        appFree := appFree[1..];
        Local(multiset{}, multiset{ptr});
        Front(ptr, held);
        held := [ptr] + held;
      }
    }

    /** A block held by the application becomes a local one. */
    method Release(ptr: int)
      requires audio.list.Valid() && Owned(multiset{}) && ptr in held
      modifies this`held
      ensures Owned(multiset{} + multiset{ptr})
    {
      hide AudioCodec.Valid, DataNodeList.Valid, SoundDelay.DelayLine.Valid;
      hide Sum, MessagePtrs, MusicPtrs, NodePtrs, Ring, Sound, Unread, Flat;
      var i := IndexOf(held, ptr);
      ghost var was := held;
      Removed(held, i);
      held := held[..i] + held[i + 1..];
      assert multiset(was) == multiset(held) + multiset{ptr};
      Local(multiset{}, multiset{ptr});
    }

    method IndexOf(q: seq<int>, p: int) returns (i: nat)
      requires p in q
      ensures i < |q| && q[i] == p
    {
      i := 0;
      Here(q, p);
      while q[i] != p
        invariant i < |q| && p in q[i..]
        decreases |q| - i
      {
        Further(q, i, p);
        i := i + 1;
      }
    }

    /** `mixer_send_msg`, if the queue has room */
    method Post(msg: Message)
      requires audio.list.Valid() && Owned(multiset{} + OnePtr(msg))
      modifies this`messages
      ensures Owned(multiset{}) && messages == old(messages) + [msg]
    {
      hide AudioCodec.Valid, DataNodeList.Valid, SoundDelay.DelayLine.Valid;
      hide Sum, MessagePtrs, MusicPtrs, NodePtrs, Ring, Sound, OnePtr;
      MessagePtrsCat(messages, [msg]);
      OneMessage(msg);
      Local(multiset{}, OnePtr(msg));
      messages := messages + [msg];
    }

    /** `mixer_device_write`: refused while paused; a block for which the queue has no room is freed. */
    method DeviceWrite(ptr: int, data: seq<int>) returns (taken: bool)
      requires Valid() && Owned(multiset{}) && ptr in held
      modifies this`held, this`messages, this`poolFree, this`appFree
      ensures Valid() && Owned(multiset{}) && (taken <==> !paused)
      ensures messages == old(messages) + if taken && |old(messages)| < QUEUE then [Data(ptr, data)] else []
      ensures !taken ==> held == old(held)
    {
      hide Mixer.Owned, AudioCodec.Valid, DataNodeList.Valid, SoundDelay.DelayLine.Valid;
      hide Sum, MessagePtrs, MusicPtrs, NodePtrs, Ring, Sound, Unread, Flat, MusicOk, Silent;
      taken := !paused;
      if paused {
        return;
      }
      Release(ptr);
      if |messages| < QUEUE {
        Post(Data(ptr, data));
      } else {
        Free(ptr, multiset{});
      }
    }

    /** `mixer_send_msg` of a control message */
    method Control(msg: Message) returns (ok: bool)
      requires Valid() && Owned(multiset{}) && !msg.Data?
      modifies this`messages
      ensures Valid() && Owned(multiset{}) && (ok <==> |old(messages)| < QUEUE)
      ensures messages == old(messages) + if ok then [msg] else []
    {
      hide Mixer.Owned, AudioCodec.Valid, DataNodeList.Valid, SoundDelay.DelayLine.Valid;
      hide Sum, MessagePtrs, MusicPtrs, NodePtrs, Ring, Sound, Unread, Flat, MusicOk, Silent;
      ok := |messages| < QUEUE;
      if ok {
        assert multiset{} + OnePtr(msg) == multiset{};
        Post(msg);
      }
    }

    // ----- the thread -----

    /** `mixer_dac_close` */
    method CloseDac()
      requires Valid() && Owned(multiset{}) && paused
      modifies this`reported, this`poolFree, this`appFree
      modifies audio`accepted, audio`isOpen, audio.list`readIndex, audio.list`dataOffset, audio.list`completed
      ensures Valid() && Owned(multiset{})
      ensures |old(poolFree)| <= |poolFree| && |audio.list.Queue()| <= |old(audio.list.Queue())|
      ensures !audio.isOpen
    {
      hide Sum, MessagePtrs, MusicPtrs, NodePtrs, Ring, Sound, Unread, Flat, MusicOk, Silent, Whole;
      audio.Close();
      Callbacks(multiset{});
    }

    /** `mixer_dac_open` */
    method OpenDac()
      requires Valid() && Owned(multiset{})
      modifies audio`isOpen
      ensures Valid() && Owned(multiset{}) && audio.isOpen
    {
      hide Sum, MessagePtrs, MusicPtrs, NodePtrs, Ring, Sound, Unread, Flat, MusicOk, Silent, Whole;
      audio.Open();
    }

    /** A block of music. */
    method DataIn(ptr: int, data: seq<int>)
      requires Valid() && Owned(multiset{} + multiset{ptr})
      modifies this`poolFree, this`appFree, this`music
      ensures Valid() && Owned(multiset{})
      ensures Stream(music) == if isMux then old(Stream(music)) + data else old(Stream(music))
      ensures |old(poolFree)| <= |poolFree|
    {
      hide AudioCodec.Valid, DataNodeList.Valid, SoundDelay.DelayLine.Valid, Mixer.Owned;
      hide Sum, MessagePtrs, MusicPtrs, NodePtrs, Ring, Sound, Unread, Flat, MusicOk, Silent, Whole, Stream;
      MusicIn(ptr, data, multiset{});
    }

    /** A message that has been received. */
    method Handle(msg: Message)
      requires Valid() && Owned(multiset{} + OnePtr(msg))
      modifies this`reported, this`poolFree, this`appFree, this`music, this`isMux, this`paused, this`rate
      modifies audio`accepted, audio`isOpen, audio.list`readIndex, audio.list`dataOffset, audio.list`completed
      ensures Valid() && Owned(multiset{}) && Did(msg, old(isMux), old(paused), old(rate), old(Stream(music)))
      ensures !Closes(old(isMux), old(paused), msg) ==> audio.accepted == old(audio.accepted)
      ensures |old(poolFree)| <= |poolFree| && |audio.list.Queue()| <= |old(audio.list.Queue())|
      ensures audio.isOpen == Opened(old(audio.isOpen), old(isMux), old(paused), msg)
    {
      hide AudioCodec.Valid, DataNodeList.Valid, SoundDelay.DelayLine.Valid, Mixer.Valid, Mixer.Owned;
      hide Sum, MessagePtrs, MusicPtrs, NodePtrs, Ring, Sound, Unread, Flat, MusicOk, Silent, Whole, Stream;
      if msg.Data? {
        DataIn(msg.ptr, msg.data);
      } else {
        assert multiset{} + OnePtr(msg) == multiset{};
        Command(msg);
      }
    }

    /** What a message leaves. */
    ghost predicate Did(msg: Message, wasMux: bool, wasPaused: bool, before: nat, tune: seq<int>)
      reads this`isMux, this`paused, this`rate, this`music
    {
      && (isMux, paused) == Obeyed(wasMux, wasPaused, msg) && Stream(music) == Tuned(tune, wasMux, wasPaused, msg)
      && rate == if msg.SetRate? && !wasPaused then msg.rate else before
    }

    /** Music is not mixed in any longer; a paused mixer closes the DAC. */
    method Static()
      requires Valid() && Owned(multiset{})
      modifies this`reported, this`poolFree, this`appFree, this`music, this`isMux
      modifies audio`accepted, audio`isOpen, audio.list`readIndex, audio.list`dataOffset, audio.list`completed
      ensures Valid() && Owned(multiset{}) && isMux == (paused && old(isMux))
      ensures Stream(music) == if paused then old(Stream(music)) else []
      ensures !paused ==> audio.accepted == old(audio.accepted)
      ensures |old(poolFree)| <= |poolFree| && |audio.list.Queue()| <= |old(audio.list.Queue())|
      ensures audio.isOpen == (!paused && old(audio.isOpen))
    {
      hide Mixer.Owned, AudioCodec.Valid, DataNodeList.Valid, SoundDelay.DelayLine.Valid;
      hide Sum, MessagePtrs, MusicPtrs, NodePtrs, Ring, Sound, Unread, Flat, Silent, Whole;
      if !paused {
        isMux := false;
        Flush(multiset{});
      } else {
        CloseDac();
      }
    }

    /** The mixer pauses. */
    method Stop()
      requires Valid() && Owned(multiset{})
      modifies this`reported, this`poolFree, this`appFree, this`music, this`paused
      modifies audio`accepted, audio`isOpen, audio.list`readIndex, audio.list`dataOffset, audio.list`completed
      ensures Valid() && Owned(multiset{}) && paused && Stream(music) == []
      ensures isMux ==> audio.accepted == old(audio.accepted)
      ensures |old(poolFree)| <= |poolFree| && |audio.list.Queue()| <= |old(audio.list.Queue())|
      ensures audio.isOpen == (isMux && old(audio.isOpen))
    {
      hide Mixer.Owned, AudioCodec.Valid, DataNodeList.Valid, SoundDelay.DelayLine.Valid;
      hide Sum, MessagePtrs, MusicPtrs, NodePtrs, Ring, Sound, Unread, Flat, Silent, Whole;
      paused := true;
      if !isMux { CloseDac(); }
      Flush(multiset{});
    }

    /** A control message. */
    method Command(msg: Message)
      requires Valid() && Owned(multiset{}) && !msg.Data?
      modifies this`reported, this`poolFree, this`appFree, this`music, this`isMux, this`paused, this`rate
      modifies audio`accepted, audio`isOpen, audio.list`readIndex, audio.list`dataOffset, audio.list`completed
      ensures Valid() && Owned(multiset{}) && Did(msg, old(isMux), old(paused), old(rate), old(Stream(music)))
      ensures !Closes(old(isMux), old(paused), msg) ==> audio.accepted == old(audio.accepted)
      ensures |old(poolFree)| <= |poolFree| && |audio.list.Queue()| <= |old(audio.list.Queue())|
      ensures audio.isOpen == Opened(old(audio.isOpen), old(isMux), old(paused), msg)
    {
      hide Mixer.Owned, AudioCodec.Valid, DataNodeList.Valid, SoundDelay.DelayLine.Valid;
      hide Sum, MessagePtrs, MusicPtrs, NodePtrs, Ring, Sound, Unread, Flat, Silent, Whole, MusicOk, Stream;
      match msg {
        case SrcFlow =>
          if !paused { isMux := true; } else { OpenDac(); }
        case SrcStatic =>
          Static();
        case SetRate(r) =>
          if !paused && rate != r { rate := r; }
        case Pause =>
          Stop();
        case Replay =>
          OpenDac();
          paused := false;
      }
    }

    /** The first message, if there is one. */
    method Receive()
      requires Valid() && Owned(multiset{})
      modifies this`reported, this`poolFree, this`appFree, this`music, this`isMux, this`paused, this`rate, this`messages
      modifies audio`accepted, audio`isOpen, audio.list`readIndex, audio.list`dataOffset, audio.list`completed
      ensures Valid() && Owned(multiset{})
      ensures
        if old(messages) == [] then
          && messages == [] && music == old(music) && isMux == old(isMux) && paused == old(paused) && rate == old(rate)
          && audio.accepted == old(audio.accepted)
        else
          var msg := old(messages)[0];
          && messages == old(messages)[1..] && Did(msg, old(isMux), old(paused), old(rate), old(Stream(music)))
          && (!Closes(old(isMux), old(paused), msg) ==> audio.accepted == old(audio.accepted))
      ensures |old(poolFree)| <= |poolFree| && |audio.list.Queue()| <= |old(audio.list.Queue())|
      ensures audio.isOpen
        == if old(messages) == [] then old(audio.isOpen)
           else Opened(old(audio.isOpen), old(isMux), old(paused), old(messages)[0])
    {
      hide AudioCodec.Valid, DataNodeList.Valid, SoundDelay.DelayLine.Valid;
      hide Sum, MessagePtrs, MusicPtrs, NodePtrs, Ring, Sound, Unread, Flat, MusicOk, Silent, Whole, Stream;
      hide OnePtr, Obeyed, Tuned, Closes, Mixer.Did;
      if messages != [] {
        var msg := messages[0];
        FirstMessage(messages);
        messages := messages[1..];
        Local(multiset{}, OnePtr(msg));
        Handle(msg);
      }
    }

    /**
     One turn of `mixer_entry`: a message, if there is one, and a block of sound.  A paused mixer makes none; otherwise
     the words are those of `Mux` or of `Single`, and the music that is left is what the message left without them.
     */
    method Turn(mic: seq<int>, stale: seq<int>, irq: Interrupts)
        returns (words: seq<int>, sent: bool, ghost o: seq<int>)
      requires Valid() && Owned(multiset{}) && |stale| == BLOCK && SoundDelay.Samples(stale)
      modifies this`reported, this`poolFree, this`appFree, this`music, this`isMux, this`paused, this`rate, this`messages
      modifies this`muteCount, audio, audio.list, audio.list.node, audio.fifo, delay`op, delay`right, delay.fifo
      ensures Valid() && Owned(multiset{})
      ensures messages == if old(messages) == [] then [] else old(messages)[1..]
      ensures (isMux, paused) == Heeded(old(messages), old(isMux), old(paused))
      ensures var tune := Left(old(messages), old(Stream(music)), old(isMux), old(paused));
        && (isMux ==> |words| <= |tune| && Stream(music) == tune[|words|..]) && (!isMux ==> Stream(music) == tune)
        && (paused ==> words == [] && !sent)
        && (words == [] || |words| == if isMux then Min(|mic|, Min(|tune|, BLOCK)) else Min(|mic|, BLOCK))
        && (!paused && words == [] && |old(poolFree)| >= 2 ==> mic == [] || (isMux && tune == []))
        && (words != [] ==> |words| <= |mic| && Heard(o, mic[..|words|], old(muteCount) < MUTE_SECTIONS))
        && (words != [] ==>
              if isMux then
                Mixed(words, tune, o, old(delay.right), delay.started, delay.D(), delay.micVol, delay.pcmVol)
              else Echoed(words, o, old(delay.right), delay.started, delay.D(), delay.micVol))
      ensures old(messages) == [] || !Closes(old(isMux), old(paused), old(messages)[0]) ==>
        audio.accepted == if sent then old(audio.accepted) + WordBytes(words) else old(audio.accepted)
      ensures words != [] && |old(audio.list.Queue())| < audio.list.node.Length - 1 ==> sent
      ensures paused && old(messages) == [] ==> audio.isOpen == old(audio.isOpen)
      ensures paused && old(messages) != [] ==>
        audio.isOpen == Opened(old(audio.isOpen), old(isMux), old(paused), old(messages)[0])
      ensures old(messages) != [] && old(messages)[0].SetRate? && !old(paused) ==> rate == old(messages)[0].rate
      ensures old(messages) == [] || !old(messages)[0].SetRate? || old(paused) ==> rate == old(rate)
    {
      hide Mixer.Owned, AudioCodec.Valid, DataNodeList.Valid, SoundDelay.DelayLine.Valid;
      hide Sum, MessagePtrs, MusicPtrs, NodePtrs, Ring, Sound, Unread, Flat, MusicOk, Silent, Whole, Stream;
      hide SoundDelay.Samples, SoundDelay.Holds, Obeyed, Tuned, Closes, Heard, Mixed, Echoed, WordBytes;
      words, sent, o := [], false, [];
      Receive();
      Interrupted(irq.received, multiset{});
      if !paused {
        if isMux {
          words, sent, o := Mux(mic, stale, irq);
        } else {
          words, sent, o := Single(mic, stale, irq);
        }
      }
    }

    /** Every block is in exactly one place. */
    lemma ExactlyOnce(b: int)
      requires Valid() && Owned(multiset{}) && b in blocks
      ensures multiset(poolFree)[b] + multiset(appFree)[b] + multiset(held)[b] + MessagePtrs(messages)[b]
              + MusicPtrs(music)[b] + InRing()[b] == 1
    {
    }
  }

  const QUEUE: nat := 10

  function OnePtr(m: Message): multiset<int> {
    if m.Data? then multiset{m.ptr} else multiset{}
  }

  /** Whether music is mixed in, and whether the mixer is paused, after a message. */
  function Obeyed(isMux: bool, paused: bool, msg: Message): (bool, bool) {
    match msg
    case Data(_, _) => (isMux, paused)
    case SrcFlow => (isMux || !paused, paused)
    case SrcStatic => (isMux && paused, paused)
    case SetRate(_) => (isMux, paused)
    case Pause => (isMux, true)
    case Replay => (isMux, false)
  }

  /** The music that is left after a message. */
  function Tuned(tune: seq<int>, isMux: bool, paused: bool, msg: Message): seq<int> {
    match msg
    case Data(_, data) => if isMux then tune + data else tune
    case SrcFlow => tune
    case SrcStatic => if paused then tune else []
    case SetRate(_) => tune
    case Pause => []
    case Replay => tune
  }

  /** The same after the first message of the queue, if there is one. */
  function Heeded(q: seq<Message>, isMux: bool, paused: bool): (bool, bool) {
    if q == [] then (isMux, paused) else Obeyed(isMux, paused, q[0])
  }

  function Left(q: seq<Message>, tune: seq<int>, isMux: bool, paused: bool): seq<int> {
    if q == [] then tune else Tuned(tune, isMux, paused, q[0])
  }

  /**
   The halves that end in the course of a turn: behind the message, the allocation, the mixing and the first release.
   */
  datatype Interrupts = Interrupts(received: seq<bool>, taken: seq<bool>, mixed: seq<bool>, freed: seq<bool>)

  /** Whether the DAC is open after a message. */
  function Opened(isOpen: bool, isMux: bool, paused: bool, msg: Message): bool {
    match msg
    case Data(_, _) => isOpen
    case SrcFlow => isOpen || paused
    case SrcStatic => isOpen && !paused
    case SetRate(_) => isOpen
    case Pause => isOpen && isMux
    case Replay => true
  }

  /** Whether a message closes the DAC. */
  predicate Closes(isMux: bool, paused: bool, msg: Message) {
    (msg.SrcStatic? && paused) || (msg.Pause? && !isMux)
  }

  lemma OneMessage(m: Message)
    ensures MessagePtrs([m]) == OnePtr(m)
  {
    assert [m][1..] == [];
  }

  lemma FirstMessage(q: seq<Message>)
    requires q != []
    ensures MessagePtrs(q) == MessagePtrs(q[1..]) + OnePtr(q[0])
  {
  }

  lemma Here(q: seq<int>, p: int)
    requires p in q
    ensures p in q[0..]
  {
    assert q[0..] == q;
  }

  lemma Further(q: seq<int>, i: nat, p: int)
    requires i < |q| && p in q[i..] && q[i] != p
    ensures i + 1 < |q| && p in q[i + 1..]
  {
    assert q[i..] == [q[i]] + q[i + 1..];
  }

  lemma Removed(q: seq<int>, i: nat)
    requires i < |q|
    ensures multiset(q) == multiset(q[..i] + q[i + 1..]) + multiset{q[i]}
  {
    assert q == q[..i] + [q[i]] + q[i + 1..];
  }

  // ----- any run -----

  datatype Event =
    | Allocate
    | WriteBlock(ptr: int, data: seq<int>)
    | Tell(msg: Message)
    | ThreadTurn(mic: seq<int>, stale: seq<int>, irq: Interrupts)
    | HalfEnds(second: bool)

  predicate EventOk(e: Event) {
    match e
    case Tell(msg) => !msg.Data?
    case ThreadTurn(_, stale, _) => |stale| == BLOCK && SoundDelay.Samples(stale)
    case _ => true
  }

  /** However the application, the thread and the DMA take turns, no block is lost and none is in two places. */
  method Run(m: Mixer, events: seq<Event>)
    requires m.Valid() && m.Owned(multiset{}) && forall i :: 0 <= i < |events| ==> EventOk(events[i])
    modifies m, m.audio, m.audio.list, m.audio.list.node, m.audio.fifo, m.delay, m.delay.fifo
    ensures m.Valid() && m.Owned(multiset{}) && m.blocks == old(m.blocks)
  {
    hide Sum, MessagePtrs, MusicPtrs, NodePtrs, Ring, Sound, Unread, Flat, MusicOk, Silent, Whole, Stream;
    hide SoundDelay.Samples, SoundDelay.Holds;
    var i := 0;
    while i < |events|
      invariant m.Valid() && m.Owned(multiset{}) && m.blocks == old(m.blocks)
    {
      assert EventOk(events[i]);
      match events[i] {
        case Allocate => var ok, ptr := m.AppAlloc();
        case WriteBlock(ptr, data) =>
          if ptr in m.held {
            var taken := m.DeviceWrite(ptr, data);
          }
        case Tell(msg) => var ok := m.Control(msg);
        case ThreadTurn(mic, stale, irq) => var words, sent, o := m.Turn(mic, stale, irq);
        case HalfEnds(second) =>
          if !m.audio.paused {
            m.Played(second, multiset{});
          }
      }
      i := i + 1;
    }
  }

  lemma MusicTaken(music: seq<MusicNode>, c: seq<int>, b: seq<int>, all: seq<int>, n: nat)
    requires Taken(music, c, b, all, n)
    ensures n <= |all| && Stream(music) == all[n..] && n <= |c| && c[..n] == all[..n]
  {
    CopiedFront(c, b, all[..n]);
  }

  lemma Swap(p: int, q: int)
    ensures multiset{} + multiset{p} + multiset{q} == multiset{} + multiset{q} + multiset{p}
  {
  }

  /** Every word of `mic` stands in both channels of its frame. */
  ghost predicate Frames(c: seq<int>, mic: seq<int>) {
    2 * |mic| <= |c| && forall j :: 0 <= j < |mic| ==> c[2 * j] == mic[j] && c[2 * j + 1] == mic[j]
  }

  /** A 16-bit sample from its two bytes, the low one first. */
  function Sample(low: int, high: int): (w: int)
    ensures SoundDelay.InInt16(w)
  {
    var u := low % 256 + 256 * (high % 256);
    if u < 0x8000 then u else u - 0x10000
  }

  /** The whole samples in the bytes of the microphone. */
  function SamplesOf(b: seq<int>): (s: seq<int>)
    ensures |s| == |b| / 2
  {
    seq(|b| / 2, i requires 0 <= i < |b| / 2 => Sample(b[2 * i], b[2 * i + 1]))
  }

  /** A word whose low byte has been overwritten. */
  function WithLow(w: int, low: int): (r: int)
    ensures SoundDelay.InInt16(r)
  {
    Sample(low, w / 256)
  }

  /** The words of the frames that `n` words are in. */
  function Rounded(n: nat): nat {
    SoundDelay.Rounded(n)
  }

  /** The same word on both channels. */
  function Stereo(mic: seq<int>): (s: seq<int>)
    ensures |s| == 2 * |mic|
  {
    seq(2 * |mic|, i requires 0 <= i < 2 * |mic| => mic[i / 2])
  }

  /**
   What is heard of the bytes of the microphone: nothing in the first sections, else each whole sample on both channels.
   The frame of an odd byte may be anything.
   */
  ghost predicate Heard(o: seq<int>, mic: seq<int>, muted: bool) {
    && |o| == Rounded(|mic|) && SoundDelay.Samples(o)
    && if muted then o[..|mic|] == Zeros(|mic|) else o[..2 * (|mic| / 2)] == Stereo(SamplesOf(mic))
  }

  /** The words are those of the music with the words `o` and their echo. */
  ghost predicate Mixed(words: seq<int>, tune: seq<int>, o: seq<int>, before: seq<int>, started: bool, d: nat, vol: nat,
                        pcm: nat)
  {
    && d > 0 && |words| <= |o| && |words| <= |tune|
    && forall i :: 0 <= i < |words| ==>
         words[i] == SoundDelay.Blend(tune[i], SoundDelay.Voice(before, o, i / 2, started, d, vol), pcm)
  }

  /** The words are those of `o` and their echo, on both channels. */
  ghost predicate Echoed(words: seq<int>, o: seq<int>, before: seq<int>, started: bool, d: nat, vol: nat) {
    && d > 0 && |words| <= |o|
    && forall i :: 0 <= i < |words| ==> words[i] == SoundDelay.Voice(before, o, i / 2, started, d, vol)
  }

  lemma SamplesOfOk(mic: seq<int>)
    ensures SoundDelay.Samples(SamplesOf(mic))
  {
  }

  lemma ReadIn(c: seq<int>, b: seq<int>, s: seq<int>)
    requires |c| == |b| == BLOCK && |s| <= BLOCK / 2 && SoundDelay.Samples(b) && SoundDelay.Samples(s)
    requires forall i :: 0 <= i < BLOCK ==> c[i] == if BLOCK / 2 <= i < BLOCK / 2 + |s| then s[i - BLOCK / 2] else b[i]
    ensures SoundDelay.Samples(c)
  {
  }

  lemma OddByte(c: seq<int>, low: int)
    requires SoundDelay.Samples(c)
    ensures forall i :: 0 <= i < |c| ==> SoundDelay.Samples(c[i := WithLow(c[i], low)])
  {
  }

  lemma {:induction false} PassesIn(b: seq<int>, h: nat, i: nat, n: nat)
    requires i <= n && 2 * n <= |b| && h + n <= |b| && SoundDelay.Samples(b)
    ensures SoundDelay.Samples(Passes(b, h, i, n))
    decreases n - i
  {
    if i < n {
      var c := b[2 * i := b[h + i]];
      PassesIn(c[2 * i + 1 := c[h + i]], h, i + 1, n);
    }
  }

  lemma MutedOrNot(c: seq<int>, b: seq<int>, mic: seq<int>, muted: bool)
    requires |mic| <= BLOCK && |b| == BLOCK && SoundDelay.Samples(b) && Frames(b, SamplesOf(mic))
    requires c == if muted then Zeros(|mic|) + b[|mic|..] else b
    ensures |c| == BLOCK && SoundDelay.Samples(c) && Rounded(|mic|) <= BLOCK && Heard(c[..Rounded(|mic|)], mic, muted)
  {
    var o := c[..Rounded(|mic|)];
    if muted {
      assert o[..|mic|] == Zeros(|mic|);
    } else {
      FramesStereo(b, SamplesOf(mic));
      assert o[..2 * (|mic| / 2)] == b[..2 * (|mic| / 2)];
    }
  }

  lemma FramesStereo(c: seq<int>, m: seq<int>)
    requires Frames(c, m)
    ensures 2 * |m| <= |c| && c[..2 * |m|] == Stereo(m)
  {
    forall i | 0 <= i < 2 * |m|
      ensures c[i] == m[i / 2]
    {
      assert i == 2 * (i / 2) || i == 2 * (i / 2) + 1;
      assert c[2 * (i / 2)] == m[i / 2] && c[2 * (i / 2) + 1] == m[i / 2];
    }
  }

  lemma CopiedFront(c: seq<int>, b: seq<int>, w: seq<int>)
    requires Copied(c, b, 0, w)
    ensures |w| <= |c| && c[..|w|] == w
  {
  }

  lemma MixedWords(c: seq<int>, t: seq<int>, o: seq<int>, n: nat, all: seq<int>, before: seq<int>, started: bool,
                   d: nat,
                   vol: nat, pcm: nat)
    requires |o| == Rounded(n) && n <= |all| && n <= |t| && t[..n] == all[..n]
    requires SoundDelay.Blended(c, t, o, before, Rounded(n) / 2, started, d, vol, pcm)
    ensures n <= |c| && Mixed(c[..n], all, o, before, started, d, vol, pcm)
  {
    hide SoundDelay.Voice, SoundDelay.Blend;
    forall i | 0 <= i < n
      ensures c[..n][i] == SoundDelay.Blend(all[i], SoundDelay.Voice(before, o, i / 2, started, d, vol), pcm)
    {
      assert all[i] == all[..n][i] == t[..n][i] == t[i];
      var j := i / 2;
      assert i == 2 * j || i == 2 * j + 1;
    }
  }

  lemma EchoedWords(c: seq<int>, e: seq<int>, n: nat, before: seq<int>, started: bool, d: nat, vol: nat)
    requires Rounded(n) <= |e| && SoundDelay.Voiced(c, e, before, Rounded(n) / 2, started, d, vol)
    ensures n <= |c| && Echoed(c[..n], e[..Rounded(n)], before, started, d, vol)
  {
    hide SoundDelay.Delayed, SoundDelay.Rights, SoundDelay.Amplify;
    var o := e[..Rounded(n)];
    forall i | 0 <= i < n
      ensures c[..n][i] == SoundDelay.Voice(before, o, i / 2, started, d, vol)
    {
      var j := i / 2;
      assert i == 2 * j || i == 2 * j + 1;
      assert o[..2 * j] == e[..2 * j] && o[2 * j] == e[2 * j];
      assert c[2 * j] == c[2 * j + 1] == SoundDelay.Voice(before, e, j, started, d, vol);
      assert SoundDelay.Voice(before, e, j, started, d, vol) == SoundDelay.Voice(before, o, j, started, d, vol);
    }
  }

  function Zeros(n: nat): (z: seq<int>)
    ensures |z| == n && forall i :: 0 <= i < n ==> z[i] == 0
  {
    seq(n, _ => 0)
  }

  lemma DoubledWords(c: seq<int>, b: seq<int>, mic: seq<int>)
    requires |b| == BLOCK && |c| == BLOCK && |mic| <= BLOCK / 2 && Doubled(c, b, BLOCK / 2, |mic|)
    requires forall i :: 0 <= i < |mic| ==> b[BLOCK / 2 + i] == mic[i]
    requires SoundDelay.Samples(mic)
    ensures Frames(c, mic) && SoundDelay.Samples(c[..2 * |mic|])
  {
    forall i | 0 <= i < 2 * |mic|
      ensures SoundDelay.InInt16(c[i])
    {
      assert i == 2 * (i / 2) || i == 2 * (i / 2) + 1;
      assert c[2 * (i / 2)] == mic[i / 2] && c[2 * (i / 2) + 1] == mic[i / 2];
    }
  }

  lemma NextNode(q: seq<DataNode>, i: nat)
    requires i < |q|
    ensures NodePtrs(q[i..]) == NodePtrs(q[i + 1..]) + multiset{q[i].ptr}
  {
    assert q[i..][1..] == q[i + 1..];
  }

  lemma LastNode(q: seq<DataNode>, i: nat, node: DataNode)
    requires i <= |q|
    ensures NodePtrs((q + [node])[i..]) == NodePtrs(q[i..]) + multiset{node.ptr}
  {
    assert (q + [node])[i..] == q[i..] + [node];
    NodePtrsCat(q[i..], [node]);
    assert [node][1..] == [];
  }

  /** The first `n` words of the music `all` have been taken, and stand at the front of the buffer. */
  ghost predicate Taken(music: seq<MusicNode>, c: seq<int>, b: seq<int>, all: seq<int>, n: nat) {
    n <= |all| && Stream(music) == all[n..] && Copied(c, b, 0, all[..n])
  }

  lemma TakenNone(music: seq<MusicNode>, b: seq<int>)
    ensures Taken(music, b, b, Stream(music), 0)
  {
    NothingCopied(b, 0);
  }

  lemma TakenAll(music: seq<MusicNode>, c: seq<int>, b: seq<int>, all: seq<int>, n: nat)
    requires Taken(music, c, b, all, n)
    ensures n <= |all| && (music == [] ==> n == |all|)
  {
  }

  lemma FirstMusic(q: seq<MusicNode>)
    requires q != []
    ensures MusicPtrs(q) == MusicPtrs(q[1..]) + multiset{q[0].ptr}
  {
  }

  lemma OneNode(node: MusicNode)
    ensures MusicPtrs([node]) == multiset{node.ptr} && (node.usePos == 0 ==> Stream([node]) == node.data)
  {
    assert [node][1..] == [];
  }
}
