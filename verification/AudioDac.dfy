/**
 The DMA buffer of the DAC: two halves, each refilled from the node ring when
 it has been played.  When the ring runs dry the DMA is paused, and the writer
 fills the rest of the half.
 */
module AudioDac {
  import Seqs
  import opened AudioRing

  const HALF: nat := 1024

  predicate Silent(b: seq<int>, from: nat, n: nat) {
    from + n <= |b| && forall i :: from <= i < from + n ==> b[i] == 0
  }

  /** The half that does not begin at `base` is as in `b`. */
  ghost predicate OtherHalf(c: seq<int>, b: seq<int>, base: nat) {
    |b| == 2 * HALF && |c| == 2 * HALF && if base == 0 then c[HALF..] == b[HALF..] else c[..HALF] == b[..HALF]
  }

  /** Whole halves. */
  predicate Whole(p: seq<int>) {
    |p| % HALF == 0
  }

  class AudioCodec {
    const list: DataNodeList
    const fifo: array<int>
    var paused: bool
    var fillPos: nat
    var fillSize: nat
    var isOpen: bool
    ghost var accepted: seq<int>    // the bytes of all buffers that the ring took
    ghost var played: seq<int>      // the halves, in the order in which they were filled up

    /** The part of a paused half that has been filled. */
    ghost function Partial(): seq<int>
      requires Valid0()
      reads this, fifo
    {
      if paused then fifo[fillPos + fillSize - HALF..fillPos] else []
    }

    ghost predicate Valid0()
      reads this
    {
      fifo.Length == 2 * HALF
      && (paused ==> 0 < fillSize <= HALF && (fillPos + fillSize == HALF || fillPos + fillSize == 2 * HALF))
    }

    /**
     Paused means that the ring is empty and that part of one half, up to its end, is silent and still to be filled.
     The halves filled up, the part of a paused half and what is in the ring are all that was accepted.
     */
    ghost predicate Valid()
      reads this, list, list.node, fifo
    {
      && list.Valid() && Valid0()
      && (paused ==> list.Queue() == [] && Silent(fifo[..], fillPos, fillSize))
      && Whole(played) && played + Partial() + list.Pending() == accepted
    }

    constructor (size: nat)
      requires size > 0
      ensures Valid() && !paused && accepted == [] && played == [] && fresh(list) && fresh(list.node) && fresh(fifo)
    {
      list := new DataNodeList(size);
      fifo := new int[2 * HALF](i => 0);
      paused, fillPos, fillSize, isOpen, accepted, played := false, 0, 0, false, [], [];
    }

    /** All buffers ever queued: those reported and those still in the ring. */
    ghost function Reported(): seq<DataNode>
      requires list.Valid()
      reads list, list.node
    {
      list.completed + list.Queue()
    }

    lemma Listing()
      requires list.Valid()
      ensures Reported() == list.completed + list.Queue()
    {
    }

    /** The device as streams. */
    ghost function Now(): Streams
      requires Valid()
      reads this, list, list.node, fifo
    {
      Streams(list.Pending(), paused, Partial(), played)
    }

    /** What the invariant says of the streams. */
    lemma Accounts()
      requires Valid()
      ensures var s := Now();
        && All(s) == accepted && (s.paused ==> s.pending == [] && |s.part| < HALF) && (!s.paused ==> s.part == [])
        && list.Valid() && Valid0() && (paused ==> fillPos + fillSize >= HALF) && fifo.Length == 2 * HALF
    {
      if paused {
        QueueEmpty();
      }
    }

    /** `audio_codec_write`: the buffer is queued; a paused half takes what it can. */
    method Write(ptr: int, data: seq<int>) returns (ok: bool)
      requires Valid()
      modifies this, list, list.node, fifo
      ensures Valid() && (ok <==> |old(list.Queue())| < list.node.Length - 1)
      ensures accepted == if ok then old(accepted) + data else old(accepted)
      ensures Reported() == if ok then old(Reported()) + [DataNode(ptr, data)] else old(Reported())
      ensures |old(list.completed)| <= |list.completed|
      ensures if old(paused) then Filled(old(played), old(fifo[..]), old(fillPos + fillSize) - HALF)
              else !paused && played == old(played) && fifo[..] == old(fifo[..])
      ensures isOpen == old(isOpen)
    {
      hide Silent, Copied, Ring, Flat, Sound, Unread, Whole;
      ghost var part := Partial();
      ok := Enqueue(ptr, data, part);
      if paused {
        Fill(part);
      }
    }

    /** The half at `base` is full and goes on being played, or still paused; the other half is as in `b`. */
    ghost predicate Filled(before: seq<int>, b: seq<int>, base: int)
      reads this`paused, this`played, this`fillPos, this`fillSize, fifo
    {
      && (base == 0 || base == HALF) && OtherHalf(fifo[..], b, base)
      && if paused then played == before && fillPos + fillSize == base + HALF
         else played == before + fifo[base..base + HALF]
    }

    /** The buffer goes into the ring. */
    method Enqueue(ptr: int, data: seq<int>, ghost part: seq<int>) returns (ok: bool)
      requires list.Valid() && played + part + list.Pending() == accepted
      modifies this`accepted, list`writeIndex, list.node
      ensures list.Valid() && played + part + list.Pending() == accepted
      ensures ok <==> |old(list.Queue())| < list.node.Length - 1
      ensures accepted == if ok then old(accepted) + data else old(accepted)
      ensures Reported() == if ok then old(Reported()) + [DataNode(ptr, data)] else old(Reported())
    {
      hide Silent, Copied, Ring, Flat, Sound, Unread, Whole;
      ghost var p, q := list.Pending(), list.Queue();
      ok := list.Write(ptr, data);
      if ok {
        Seqs.Assoc(played + part, p, data);
        Seqs.Assoc(list.completed, q, [DataNode(ptr, data)]);
        accepted := accepted + data;
      }
    }

    /** The paused half is filled from the ring; when it is full the DMA goes on. */
    method Fill(ghost part: seq<int>)
      requires list.Valid() && Valid0() && paused && part == Partial() && Silent(fifo[..], fillPos, fillSize)
      requires Whole(played) && played + part + list.Pending() == accepted
      modifies this`paused, this`fillPos, this`fillSize, this`played
      modifies list`readIndex, list`dataOffset, list`completed, fifo
      ensures list.Valid() && Valid() && Filled(old(played), old(fifo[..]), old(fillPos + fillSize) - HALF)
      ensures Reported() == old(Reported()) && |old(list.completed)| <= |list.completed|
    {
      hide Silent, Copied, Ring, Flat, Sound, Unread, Whole, OtherHalf, AudioCodec.Valid, DataNodeList.Valid;
      ghost var b, p, base := fifo[..], list.Pending(), fillPos + fillSize - HALF;
      var result := list.Read(fifo, fillPos, fillSize);
      ghost var more := Took(b, fifo[..], fillPos, fillSize, played, part, p, result);
      Advance(result, more);
    }

    /** `result` more bytes have been put into the paused half. */
    method Advance(result: nat, ghost part: seq<int>)
      requires list.Valid() && Valid0() && paused && result <= fillSize && (result < fillSize ==> list.Queue() == [])
      requires part == fifo[fillPos + fillSize - HALF..fillPos + result]
      requires Silent(fifo[..], fillPos + result, fillSize - result)
      requires Whole(played) && played + part + list.Pending() == accepted
      modifies this`paused, this`fillPos, this`fillSize, this`played
      ensures list.Valid() && Valid() && old(fillPos + fillSize) >= HALF
      ensures if paused then played == old(played) && fillPos + fillSize == old(fillPos + fillSize)
              else played == old(played) + fifo[old(fillPos + fillSize) - HALF..old(fillPos + fillSize)]
    {
      hide Silent, Copied, Ring, Flat, Sound, Unread;
      if result == fillSize {
        paused := false;
        played := played + part;
        Nothing(fifo[..], 0, played, list.Pending());
      } else {
        fillPos := fillPos + result;
        fillSize := fillSize - result;
      }
    }

    /** `memset` of one half. */
    method Silence(base: nat)
      requires fifo.Length == 2 * HALF && (base == 0 || base == HALF)
      modifies fifo
      ensures Silent(fifo[..], base, HALF) && OtherHalf(fifo[..], old(fifo[..]), base)
    {
      forall i | base <= i < base + HALF {
        fifo[i] := 0;
      }
    }

    /** The refilling of one half, `base` being its place, when the ring may be empty. */
    method Refill(base: nat)
      requires Valid() && !paused && (base == 0 || base == HALF)
      modifies this`paused, this`fillPos, this`fillSize, this`played
      modifies list`readIndex, list`dataOffset, list`completed, fifo
      ensures Valid() && accepted == old(accepted) && OtherHalf(fifo[..], old(fifo[..]), base)
      ensures Reported() == old(Reported()) && |old(list.completed)| <= |list.completed|
      ensures !paused ==> played == old(played) + fifo[base..base + HALF]
      ensures paused ==> played == old(played) && fillPos + fillSize == base + HALF
    {
      hide Silent, Copied, Ring, Flat, Sound, Unread, OtherHalf;
      ghost var b := fifo[..];
      var empty := list.IsEmpty();
      Silence(base);
      ghost var c := fifo[..];
      if empty {
        paused, fillPos, fillSize := true, base, HALF;
        Nothing(fifo[..], base, played, list.Pending());
      } else {
        Load(base);
        OtherTwice(b, c, fifo[..], base);
      }
    }

    /** What the ring has for a silent half. */
    method Load(base: nat)
      requires list.Valid() && Valid0() && !paused && (base == 0 || base == HALF) && Silent(fifo[..], base, HALF)
      requires Whole(played) && played + list.Pending() == accepted
      modifies this`paused, this`fillPos, this`fillSize, this`played
      modifies list`readIndex, list`dataOffset, list`completed, fifo
      ensures Valid() && OtherHalf(fifo[..], old(fifo[..]), base)
      ensures Reported() == old(Reported()) && |old(list.completed)| <= |list.completed|
      ensures !paused ==> played == old(played) + fifo[base..base + HALF]
      ensures paused ==> played == old(played) && fillPos + fillSize == base + HALF
    {
      hide Silent, Copied, Ring, Flat, Sound, Unread, OtherHalf;
      ghost var b, p := fifo[..], list.Pending();
      var result := list.Read(fifo, base, HALF);
      ghost var got := p[..result];
      FilledHalf(b, fifo[..], base, got);
      Split(played, p, result);
      if result < HALF {
        paused, fillPos, fillSize := true, base + result, HALF - result;
      } else {
        played := played + got;
        Nothing(fifo[..], base, played, list.Pending());
      }
    }

    /** `audio_codec_open` */
    method Open()
      requires Valid()
      modifies this`isOpen
      ensures Valid() && isOpen
    {
      isOpen := true;
    }

    /** `audio_codec_close`: if it is open, what is in the ring is given up, and all its buffers are reported. */
    method Close()
      requires Valid()
      modifies this`accepted, this`isOpen, list`readIndex, list`dataOffset, list`completed
      ensures Valid() && !isOpen && Reported() == old(Reported())
      ensures old(isOpen) ==> list.Queue() == [] && |old(list.completed)| <= |list.completed|
      ensures !old(isOpen) ==>
        list.Queue() == old(list.Queue()) && accepted == old(accepted) && list.completed == old(list.completed)
    {
      hide Silent, Ring, Flat, Sound, Whole;
      if isOpen {
        list.Empty();
        QueueEmpty();
        accepted := played + Partial();
        assert list.completed + [] == list.completed;
        assert accepted + [] == accepted;
      }
      isOpen := false;
    }

    lemma QueueEmpty()
      requires list.Valid() && list.Queue() == []
      ensures list.Pending() == []
    {
      NonePending(list.node[..], list.readIndex, list.writeIndex, list.dataOffset);
    }

    /** What has been filled up and played is the beginning of what was accepted. */
    lemma PlayedFirst()
      requires Valid()
      ensures played <= accepted && (list.Pending() == [] && !paused ==> played == accepted)
    {
      assert accepted == played + (Partial() + list.Pending());
    }

    /** `dac_dma_half_handler`: the first half has been played. */
    method HalfHandler()
      requires Valid() && !paused
      modifies this`paused, this`fillPos, this`fillSize, this`played
      modifies list`readIndex, list`dataOffset, list`completed, fifo
      ensures Valid() && accepted == old(accepted)
      ensures Reported() == old(Reported()) && |old(list.completed)| <= |list.completed|
      ensures fifo[HALF..] == old(fifo[HALF..])
      ensures if paused then played == old(played) && fillPos + fillSize == HALF
              else played == old(played) + fifo[..HALF]
      ensures paused ==> forall i :: fillPos <= i < HALF ==> fifo[i] == 0
    {
      Refill(0);
    }

    /** `dac_dma_finish_handler`: the second half has been played. */
    method FinishHandler()
      requires Valid() && !paused
      modifies this`paused, this`fillPos, this`fillSize, this`played
      modifies list`readIndex, list`dataOffset, list`completed, fifo
      ensures Valid() && accepted == old(accepted)
      ensures Reported() == old(Reported()) && |old(list.completed)| <= |list.completed|
      ensures fifo[..HALF] == old(fifo[..HALF])
      ensures if paused then played == old(played) && fillPos + fillSize == 2 * HALF
              else played == old(played) + fifo[HALF..]
      ensures paused ==> forall i :: fillPos <= i < 2 * HALF ==> fifo[i] == 0
    {
      Refill(HALF);
    }
  }

  /** What happens to the device; the DMA reports no half while it is paused. */
  datatype Event = Written(ptr: int, data: seq<int>) | HalfPlayed | FinishPlayed

  /** The device as streams: bytes in the ring, bytes in a paused half, and the halves that have been full. */
  datatype Streams = Streams(pending: seq<int>, paused: bool, part: seq<int>, played: seq<int>)

  /** A paused half takes what it can; when it is full, playing goes on. */
  function Filling(s: Streams): Streams {
    var all := s.part + s.pending;
    if |all| >= HALF then Streams(all[HALF..], false, [], s.played + all[..HALF]) else Streams([], true, all, s.played)
  }

  /** One event; `ok` says whether the ring took the buffer. */
  function Next(s: Streams, e: Event, ok: bool): Streams {
    match e
    case Written(_, data) =>
      var w := if ok then s.(pending := s.pending + data) else s;
      if s.paused then Filling(w) else w
    case _ => if s.paused then s else Filling(s)
  }

  function After(s: Streams, events: seq<Event>, oks: seq<bool>): Streams
    requires |oks| == |events|
    decreases |events|
  {
    if events == [] then s
    else
      var n := |events| - 1;
      Next(After(s, events[..n], oks[..n]), events[n], oks[n])
  }

  /** The bytes of the buffers that were taken. */
  function Admitted(events: seq<Event>, oks: seq<bool>): seq<int>
    requires |oks| == |events|
  {
    if events == [] then []
    else
      var n := |events| - 1;
      Admitted(events[..n], oks[..n]) + Bytes(events[n], oks[n])
  }

  function Bytes(e: Event, ok: bool): seq<int> {
    if e.Written? && ok then e.data else []
  }

  /** The buffers that were taken. */
  function Buffers(events: seq<Event>, oks: seq<bool>): seq<DataNode>
    requires |oks| == |events|
  {
    if events == [] then []
    else
      var n := |events| - 1;
      Buffers(events[..n], oks[..n]) + Buffer(events[n], oks[n])
  }

  function Buffer(e: Event, ok: bool): seq<DataNode> {
    if e.Written? && ok then [DataNode(e.ptr, e.data)] else []
  }

  function All(s: Streams): seq<int> {
    s.played + s.part + s.pending
  }

  /**
   No byte is lost, repeated or moved: what is played, waits in a half or in the ring is all that was taken, in order.
   */
  lemma {:induction false} AllKept(s: Streams, events: seq<Event>, oks: seq<bool>)
    requires |oks| == |events| && (!s.paused ==> s.part == [])
    ensures var r := After(s, events, oks);
      All(r) == All(s) + Admitted(events, oks) && s.played <= r.played && (!r.paused ==> r.part == [])
    decreases |events|
  {
    if events == [] {
      assert All(s) + [] == All(s);
    } else {
      var n := |events| - 1;
      AllKept(s, events[..n], oks[..n]);
      NextKept(After(s, events[..n], oks[..n]), events[n], oks[n]);
      Seqs.Assoc(All(s), Admitted(events[..n], oks[..n]), Bytes(events[n], oks[n]));
    }
  }

  lemma NextKept(s: Streams, e: Event, ok: bool)
    requires !s.paused ==> s.part == []
    ensures var r := Next(s, e, ok);
      All(r) == All(s) + Bytes(e, ok) && s.played <= r.played && (!r.paused ==> r.part == [])
  {
    var w := if e.Written? && ok then s.(pending := s.pending + e.data) else s;
    Seqs.Assoc(s.played + s.part, s.pending, Bytes(e, ok));
    assert All(w) == All(s) + Bytes(e, ok);
    FillingKept(w);
  }

  lemma FillingKept(s: Streams)
    ensures All(Filling(s)) == All(s) && s.played <= Filling(s).played
  {
    var all := s.part + s.pending;
    Seqs.Assoc(s.played, s.part, s.pending);
    if |all| >= HALF {
      assert all == all[..HALF] + all[HALF..];
      Seqs.Assoc(s.played, all[..HALF], all[HALF..]);
      assert s.played + all[..HALF] + [] == s.played + all[..HALF];
    } else {
      assert s.played + all + [] == s.played + all;
    }
  }

  /** The accounts leave only one way in which a half can have been filled. */
  lemma OnlyFilling(s: Streams, r: Streams, half: seq<int>)
    requires All(r) == All(s) && (r.paused ==> r.pending == [] && |r.part| < HALF && r.played == s.played)
    requires !r.paused ==> r.part == [] && |half| == HALF && r.played == s.played + half
    ensures r == Filling(s)
  {
    var all := s.part + s.pending;
    Seqs.Assoc(s.played, s.part, s.pending);
    assert All(s)[|s.played|..] == all;
    if r.paused {
      assert All(r)[|s.played|..] == r.part;
    } else {
      assert All(r)[|s.played|..] == half + r.pending;
      assert all[..HALF] == half && all[HALF..] == r.pending;
    }
  }

  /** And only one way in which a buffer can have been queued. */
  lemma OnlyQueued(s: Streams, r: Streams, data: seq<int>)
    requires All(r) == All(s) + data && !s.paused && !r.paused && s.part == r.part == [] && r.played == s.played
    ensures r == s.(pending := s.pending + data)
  {
    assert All(s)[|s.played|..] == s.pending && All(r)[|s.played|..] == r.pending;
    assert (All(s) + data)[|s.played|..] == s.pending + data;
  }

  /**
   What the device does with the streams: a half that ends takes the next 1024 bytes of the ring, and the device pauses
   exactly when there are fewer; a paused half goes on exactly when a buffer brings what it lacks.
   */
  lemma StreamsMove(s: Streams, e: Event, ok: bool)
    requires (s.paused ==> s.pending == [] && |s.part| < 1024) && (!s.paused ==> s.part == [])
    ensures var r := Next(s, e, ok);
      match e
      case Written(_, data) =>
        var d := if ok then data else [];
        if !s.paused then r == s.(pending := s.pending + d)
        else if |s.part| + |d| < 1024 then r == s.(part := s.part + d)
        else var n := 1024 - |s.part|;
             !r.paused && r.part == [] && r.played == s.played + (s.part + d[..n]) && r.pending == d[n..]
      case _ =>
        if s.paused then r == s
        else if |s.pending| < 1024 then r.paused && r.part == s.pending && r.pending == [] && r.played == s.played
        else !r.paused && r.part == [] && r.played == s.played + s.pending[..1024] && r.pending == s.pending[1024..]
  {
    match e
    case Written(_, data) =>
      var d := if ok then data else [];
      assert s.pending + [] == s.pending && s.pending + d == if s.pending == [] then d else s.pending + d;
      var all := s.part + d;
      if |all| >= 1024 {
        assert all[..1024] == s.part + d[..1024 - |s.part|] && all[1024..] == d[1024 - |s.part|..];
      }
    case _ => assert [] + s.pending == s.pending;
  }

  function Count(oks: seq<bool>): nat {
    if oks == [] then 0 else Count(oks[..|oks| - 1]) + if oks[|oks| - 1] then 1 else 0
  }

  /** A half has been played; while paused nothing happens. */
  method HalfEnds(audio: AudioCodec, second: bool) returns (filled: seq<int>)
    requires audio.Valid()
    modifies audio, audio.list, audio.list.node, audio.fifo
    ensures audio.Valid() && audio.list.Valid()
    ensures audio.Now() == (if old(audio.paused) then old(audio.Now()) else Filling(old(audio.Now())))
    ensures audio.played == old(audio.played) + filled
    ensures filled == [] || filled == audio.fifo[..HALF] || filled == audio.fifo[HALF..]
    ensures audio.Reported() == old(audio.Reported()) && |old(audio.list.completed)| <= |audio.list.completed|
  {
    hide Silent, Copied, Ring, Flat, Sound, Unread, OtherHalf, Whole, Filling, All, AudioCodec.Reported;
    filled := [];
    ghost var s := audio.Now();
    audio.Accounts();
    if !audio.paused {
      if second {
        audio.FinishHandler();
        filled := if audio.paused then [] else audio.fifo[HALF..];
      } else {
        audio.HalfHandler();
        filled := if audio.paused then [] else audio.fifo[..HALF];
      }
      audio.Accounts();
      OnlyFilling(s, audio.Now(), filled);
    }
  }

  /** A buffer is written. */
  method Write(audio: AudioCodec, ptr: int, data: seq<int>) returns (ok: bool, filled: seq<int>)
    requires audio.Valid()
    modifies audio, audio.list, audio.list.node, audio.fifo
    ensures audio.Valid() && audio.list.Valid() && (ok <==> |old(audio.list.Queue())| < audio.list.node.Length - 1)
    ensures audio.Now() == Next(old(audio.Now()), Written(ptr, data), ok)
    ensures audio.played == old(audio.played) + filled
    ensures filled == [] || filled == audio.fifo[..HALF] || filled == audio.fifo[HALF..]
    ensures audio.Reported() == if ok then old(audio.Reported()) + [DataNode(ptr, data)] else old(audio.Reported())
    ensures |old(audio.list.completed)| <= |audio.list.completed|
  {
    hide AudioCodec.Valid, DataNodeList.Valid, OtherHalf, Filling, All, Next, AudioCodec.Reported, AudioCodec.Partial;
    filled := [];
    ghost var s := audio.Now();
    var paused, end := audio.paused, audio.fillPos + audio.fillSize;
    audio.Accounts();
    ok := audio.Write(ptr, data);
    if paused && !audio.paused {
      filled := audio.fifo[end - HALF..end];
    }
    audio.Accounts();
    Wrote(s, audio.Now(), ptr, data, ok, filled);
  }

  /** One event; `filled` is the half, as it stands in the buffer, that is full now and was not before. */
  method Happen(audio: AudioCodec, e: Event) returns (ok: bool, filled: seq<int>)
    requires audio.Valid()
    modifies audio, audio.list, audio.list.node, audio.fifo
    ensures audio.Valid() && audio.list.Valid()
    ensures ok <==> e.Written? && |old(audio.list.Queue())| < audio.list.node.Length - 1
    ensures audio.Now() == Next(old(audio.Now()), e, ok) && audio.played == old(audio.played) + filled
    ensures filled == [] || filled == audio.fifo[..HALF] || filled == audio.fifo[HALF..]
    ensures audio.Reported() == old(audio.Reported()) + Buffer(e, ok)
    ensures |old(audio.list.completed)| <= |audio.list.completed|
  {
    hide AudioCodec.Valid, DataNodeList.Valid, AudioCodec.Reported, Filling;
    audio.Accounts();
    assert audio.Reported() + [] == audio.Reported();
    match e {
      case Written(ptr, data) => ok, filled := Write(audio, ptr, data);
      case HalfPlayed =>
        ok := false;
        filled := HalfEnds(audio, false);
      case FinishPlayed =>
        ok := false;
        filled := HalfEnds(audio, true);
    }
  }

  lemma Wrote(s: Streams, r: Streams, ptr: int, data: seq<int>, ok: bool, half: seq<int>)
    requires All(r) == All(s) + (if ok then data else []) && (!s.paused ==> s.part == [])
    requires r.paused ==> r.pending == [] && |r.part| < HALF && r.played == s.played
    requires !r.paused ==> r.part == []
    requires s.paused && !r.paused ==> |half| == HALF && r.played == s.played + half
    requires !s.paused ==> !r.paused && r.played == s.played
    ensures r == Next(s, Written(ptr, data), ok)
  {
    hide Filling;
    var w := if ok then s.(pending := s.pending + data) else s;
    Seqs.Assoc(s.played + s.part, s.pending, data);
    assert All(s) + [] == All(s);
    if s.paused {
      OnlyFilling(w, r, half);
    } else {
      assert s.pending + [] == s.pending;
      OnlyQueued(s, r, if ok then data else []);
    }
  }

  /**
   Any run of writes and DMA reports, from any valid state.  The device does what the streams do, whose bytes are kept
   in order; `filled` are the halves, read off the buffer when they were full; the buffers reported, and then those in
   the ring, are those taken, in order; a write succeeds while there is room.
   */
  method Run(audio: AudioCodec, events: seq<Event>) returns (oks: seq<bool>, filled: seq<int>)
    requires audio.Valid()
    modifies audio, audio.list, audio.list.node, audio.fifo
    ensures audio.Valid() && |oks| == |events| && audio.Now() == After(old(audio.Now()), events, oks)
    ensures old(audio.played) + filled == audio.played
    ensures audio.Reported() == old(audio.Reported()) + Buffers(events, oks)
    ensures |old(audio.list.completed)| <= |audio.list.completed|
    ensures forall i :: 0 <= i < |events| ==> (oks[i] ==> events[i].Written?)
    ensures forall i :: 0 <= i < |events| && events[i].Written? ==>
      |old(audio.list.Queue())| + Count(oks[..i]) < audio.list.node.Length - 1 ==> oks[i]
  {
    hide *;
    oks, filled := [], [];
    audio.Accounts();
    ghost var s, queued := audio.Now(), |audio.list.Queue()|;
    Begun(s, audio.played, events);
    var i := 0;
    while i < |events|
      invariant audio.Valid() && audio.list.Valid() && |oks| == i <= |events|
        && audio.Now() == After(s, events[..i], oks)
      invariant audio.played == old(audio.played) + filled && |audio.list.Queue()| <= queued + Count(oks)
      invariant audio.Reported() == old(audio.Reported()) + Buffers(events[..i], oks)
      invariant |old(audio.list.completed)| <= |audio.list.completed|
      invariant forall k :: 0 <= k < i ==> (oks[k] ==> events[k].Written?)
      invariant forall k :: 0 <= k < i && events[k].Written? ==>
        queued + Count(oks[..k]) < audio.list.node.Length - 1 ==> oks[k]
    {
      ghost var q, done := audio.list.Queue(), audio.list.completed;
      audio.Listing();
      var ok, half := Happen(audio, events[i]);
      AfterNext(s, events, oks, ok);
      audio.Listing();
      QueuedMore(done, q, audio.list.completed, audio.list.Queue(), events[i], ok);
      BuffersNext(old(audio.Reported()), events, oks, ok);
      Seqs.Assoc(old(audio.played), filled, half);
      oks, filled, i := oks + [ok], filled + half, i + 1;
    }
    assert events[..i] == events;
  }

  lemma Begun(s: Streams, played: seq<int>, events: seq<Event>)
    ensures played + [] == played && After(s, events[..0], []) == s && Count([]) == 0 && Buffers(events[..0], []) == []
  {
  }

  lemma QueuedMore(done: seq<DataNode>, q: seq<DataNode>, more: seq<DataNode>, r: seq<DataNode>, e: Event, ok: bool)
    requires more + r == done + q + Buffer(e, ok) && |done| <= |more|
    ensures |r| <= |q| + if ok then 1 else 0
  {
    assert |more + r| == |done + q + Buffer(e, ok)|;
  }

  lemma BuffersNext(before: seq<DataNode>, events: seq<Event>, oks: seq<bool>, ok: bool)
    requires |oks| < |events|
    ensures var i := |oks|;
      before + Buffers(events[..i], oks) + Buffer(events[i], ok) == before + Buffers(events[..i + 1], oks + [ok])
  {
    var i := |oks|;
    var e := events[..i + 1];
    assert e[..i] == events[..i] && (oks + [ok])[..i] == oks && e[i] == events[i];
    Seqs.Assoc(before, Buffers(events[..i], oks), Buffer(events[i], ok));
  }

  lemma AfterNext(s: Streams, events: seq<Event>, oks: seq<bool>, ok: bool)
    requires |oks| < |events|
    ensures var i := |oks|; After(s, events[..i + 1], oks + [ok]) == Next(After(s, events[..i], oks), events[i], ok)
    ensures Count(oks + [ok]) == Count(oks) + if ok then 1 else 0
    ensures (oks + [ok])[..|oks|] == oks && forall k :: 0 <= k < |oks| ==> (oks + [ok])[..k] == oks[..k]
  {
    var i := |oks|;
    var e := events[..i + 1];
    assert e[..i] == events[..i] && (oks + [ok])[..i] == oks && e[i] == events[i];
  }

  lemma OtherTwice(b: seq<int>, c: seq<int>, d: seq<int>, base: nat)
    requires OtherHalf(c, b, base) && OtherHalf(d, c, base)
    ensures OtherHalf(d, b, base)
  {
  }

  lemma Nothing(b: seq<int>, base: nat, played: seq<int>, p: seq<int>)
    requires base <= |b|
    ensures b[base..base] == [] && played + [] + p == played + p
  {
  }

  lemma Split(played: seq<int>, p: seq<int>, n: nat)
    requires n <= |p|
    ensures played + p == played + p[..n] + p[n..]
  {
    assert p == p[..n] + p[n..];
  }

  /** What a silent stretch looks like when its first bytes have been filled with `p[..n]`. */
  lemma Took(b: seq<int>, c: seq<int>, at: nat, size: nat, played: seq<int>, part: seq<int>, p: seq<int>, n: nat)
    returns (more: seq<int>)
    requires n <= size <= HALF && n <= |p| && at + size <= |b| && HALF <= at + size
    requires Copied(c, b, at, p[..n]) && Silent(b, at, size) && part == b[at + size - HALF..at]
    ensures |c| == |b| && more == c[at + size - HALF..at + n] && Silent(c, at + n, size - n)
    ensures at + size - HALF == 0 || at + size - HALF == HALF ==> |b| == 2 * HALF ==> OtherHalf(c, b, at + size - HALF)
    ensures played + more + p[n..] == played + part + p
  {
    more := part + p[..n];
    assert more == c[at + size - HALF..at + n];
    Split(played + part, p, n);
    Seqs.Assoc(played, part, p[..n]);
  }

  lemma FilledHalf(b: seq<int>, c: seq<int>, base: nat, got: seq<int>)
    requires Copied(c, b, base, got) && |got| <= HALF && |b| == 2 * HALF && (base == 0 || base == HALF)
    requires Silent(b, base, HALF)
    ensures |c| == |b| && c[base..base + |got|] == got && Silent(c, base + |got|, HALF - |got|) && OtherHalf(c, b, base)
  {
  }
}
