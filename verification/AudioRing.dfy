/**
 The ring of data nodes between the writer of an audio device and the DMA
 handler that reads it: buffers of any size, the first of them perhaps read in
 part, and a callback for every buffer that has been read to its end.
 */
module AudioRing {
  import opened Arith

  /** A buffer: its address, which the callback reports, and the bytes it holds. */
  datatype DataNode = DataNode(ptr: int, data: seq<int>)

  function Next(i: nat, n: nat): (j: nat)
    ensures i < n ==> j < n
  {
    if i + 1 >= n then 0 else i + 1
  }

  /** The nodes from `r` up to, not including, `w`, around the end. */
  function Ring(node: seq<DataNode>, r: nat, w: nat): seq<DataNode>
    requires r < |node| && w < |node|
  {
    if r <= w then node[r..w] else node[r..] + node[..w]
  }

  function Flat(q: seq<DataNode>): seq<int> {
    if q == [] then [] else q[0].data + Flat(q[1..])
  }

  lemma RingFront(node: seq<DataNode>, r: nat, w: nat)
    requires r < |node| && w < |node| && r != w
    ensures Ring(node, r, w) != [] && Ring(node, r, w)[0] == node[r]
    ensures Ring(node, Next(r, |node|), w) == Ring(node, r, w)[1..]
  {
  }

  lemma RingPut(node: seq<DataNode>, r: nat, w: nat, b: DataNode)
    requires r < |node| && w < |node| && Next(w, |node|) != r
    ensures Ring(node[w := b], r, Next(w, |node|)) == Ring(node, r, w) + [b]
  {
  }

  /** The ring is full when the next place to write is the one that is read. */
  lemma RingFull(node: seq<DataNode>, r: nat, w: nat)
    requires r < |node| && w < |node|
    ensures |Ring(node, r, w)| <= |node| - 1
    ensures Next(w, |node|) == r <==> |Ring(node, r, w)| == |node| - 1
    ensures r == w <==> Ring(node, r, w) == []
  {
  }

  lemma {:induction false} FlatCat(p: seq<DataNode>, q: seq<DataNode>)
    ensures Flat(p + q) == Flat(p) + Flat(q)
  {
    if p == [] {
      assert p + q == q;
    } else {
      assert (p + q)[1..] == p[1..] + q;
      FlatCat(p[1..], q);
    }
  }

  /** The first buffer of the ring is read up to `off`, and not to its end unless it is empty. */
  ghost predicate Sound(node: seq<DataNode>, r: nat, w: nat, off: nat) {
    && r < |node| && w < |node|
    && if r == w then off == 0 else off <= |node[r].data| && (off > 0 ==> off < |node[r].data|)
  }

  /** The bytes not yet read. */
  function Unread(node: seq<DataNode>, r: nat, w: nat, off: nat): seq<int>
    requires r < |node| && w < |node|
  {
    var all := Flat(Ring(node, r, w));
    if off <= |all| then all[off..] else []
  }

  /** `n` bytes of the oldest buffer, not to its end. */
  lemma ReadPart(node: seq<DataNode>, r: nat, w: nat, off: nat, n: nat)
    requires Sound(node, r, w, off) && r != w && off + n < |node[r].data|
    ensures Sound(node, r, w, off + n)
    ensures var p := Unread(node, r, w, off);
      n <= |p| && p[..n] == node[r].data[off..off + n] && Unread(node, r, w, off + n) == p[n..]
  {
    RingFront(node, r, w);
    OldestFirst(Ring(node, r, w), off, n);
  }

  /** All that is left of the oldest buffer. */
  lemma ReadAll(node: seq<DataNode>, r: nat, w: nat, off: nat, n: nat)
    requires Sound(node, r, w, off) && r != w && off + n == |node[r].data|
    ensures Sound(node, Next(r, |node|), w, 0)
    ensures Ring(node, r, w) == [node[r]] + Ring(node, Next(r, |node|), w)
    ensures var p := Unread(node, r, w, off);
      n <= |p| && p[..n] == node[r].data[off..off + n] && Unread(node, Next(r, |node|), w, 0) == p[n..]
  {
    RingFront(node, r, w);
    OldestFirst(Ring(node, r, w), off, n);
  }

  class DataNodeList {
    const node: array<DataNode>
    var readIndex: nat
    var writeIndex: nat
    var dataOffset: nat
    var completed: seq<DataNode>    // the calls of read_complete

    ghost predicate Valid()
      reads this, node
    {
      Sound(node[..], readIndex, writeIndex, dataOffset)
    }

    /** The buffers not read to their end, the oldest first. */
    ghost function Queue(): seq<DataNode>
      requires Valid()
      reads this, node
    {
      Ring(node[..], readIndex, writeIndex)
    }

    /** The bytes not yet read. */
    ghost function Pending(): seq<int>
      requires Valid()
      reads this, node
    {
      Unread(node[..], readIndex, writeIndex, dataOffset)
    }

    /** `rt_data_node_init` */
    constructor (size: nat)
      requires size > 0
      ensures Valid() && fresh(node) && node.Length == size && Queue() == [] && Pending() == [] && completed == []
    {
      node := new DataNode[size](i => DataNode(0, []));
      readIndex, writeIndex, dataOffset, completed := 0, 0, 0, [];
    }

    /** `rt_data_node_is_empty` */
    method IsEmpty() returns (empty: bool)
      requires Valid()
      ensures empty <==> Queue() == []
    {
      RingFull(node[..], readIndex, writeIndex);
      empty := readIndex == writeIndex;
    }

    /** `rt_data_node_write`: the buffer goes to the end of the queue unless that is full. */
    method Write(ptr: int, data: seq<int>) returns (ok: bool)
      requires Valid()
      modifies this`writeIndex, node
      ensures Valid() && (ok <==> |old(Queue())| < node.Length - 1)
      ensures Queue() == if ok then old(Queue()) + [DataNode(ptr, data)] else old(Queue())
      ensures Pending() == if ok then old(Pending()) + data else old(Pending())
    {
      ghost var b, r, w := node[..], readIndex, writeIndex;
      RingFull(b, r, w);
      var nextIndex := Next(writeIndex, node.Length);
      if nextIndex == readIndex {
        return false;
      }
      RingPut(b, r, w, DataNode(ptr, data));
      node[writeIndex] := DataNode(ptr, data);
      writeIndex := nextIndex;
      ok := true;
      assert node[..] == b[w := DataNode(ptr, data)];
      FlatCat(Ring(b, r, w), [DataNode(ptr, data)]);
      assert Flat([DataNode(ptr, data)]) == data by {
        assert [DataNode(ptr, data)][1..] == [];
      }
      OffsetFits(b, r, w, dataOffset);
    }

    /** The part of the oldest buffer that fits into `left` bytes; a buffer read to its end is reported and leaves. */
    method ReadNode(buffer: array?<int>, at: nat, left: nat) returns (n: nat, last: bool)
      requires Valid() && Queue() != [] && buffer != null ==> at + left <= buffer.Length
      requires Valid() && Queue() != []
      modifies `readIndex, `dataOffset, `completed
      modifies if buffer == null then {} else {buffer}
      ensures Valid() && n <= left && n <= |old(Pending())| && Pending() == old(Pending())[n..]
      ensures buffer != null ==> Copied(buffer[..], old(buffer[..]), at, old(Pending())[..n])
      ensures completed + Queue() == old(completed + Queue()) && |old(completed)| <= |completed|
      ensures last <==> Queue() == []
      ensures !last ==> n == left || |Queue()| < |old(Queue())|
      ensures n > 0 || left == 0 || |Queue()| < |old(Queue())|
    {
      hide Ring, Flat, Unread, Sound, Copied, Next;
      ghost var b, r, w, off := node[..], readIndex, writeIndex, dataOffset;
      InRing(b, r, w, off);
      RingFull(b, r, w);
      var d := node[readIndex];
      var remain := |d.data| - dataOffset;
      n := if left > remain then remain else left;
      if buffer != null {
        Copy(buffer, at, d.data, dataOffset, n);
      }
      dataOffset := dataOffset + n;
      last := false;
      if dataOffset >= |d.data| {
        ReadAll(b, r, w, off, n);
        completed := completed + [d];
        readIndex := Next(readIndex, node.Length);
        dataOffset := 0;
        last := readIndex == writeIndex;
        RingFull(b, readIndex, w);
        InRing(b, readIndex, w, 0);
        Fifo(old(completed), d, Ring(b, readIndex, w));
      } else {
        ReadPart(b, r, w, off, n);
      }
    }

    /**
     `rt_data_node_read`: as many of the pending bytes as fit, in order; every buffer read to its end is reported once,
     in the order of writing.
     */
    method Read(buffer: array?<int>, at: nat, size: nat) returns (result: nat)
      requires Valid() && buffer != null ==> at + size <= buffer.Length
      requires Valid()
      modifies `readIndex, `dataOffset, `completed
      modifies if buffer == null then {} else {buffer}
      ensures Valid() && result == Min(size, |old(Pending())|) && Pending() == old(Pending())[result..]
      ensures buffer != null ==> Copied(buffer[..], old(buffer[..]), at, old(Pending())[..result])
      ensures completed + Queue() == old(completed + Queue()) && |old(completed)| <= |completed|
      ensures result < size ==> Queue() == []
      ensures size > 0 && old(Queue()) != [] ==> result > 0 || |Queue()| < |old(Queue())|
    {
      hide Ring, Flat, Unread, Sound, Copied, Next;
      ghost var p, all, b0 := Pending(), completed + Queue(), if buffer == null then [] else buffer[..];
      var empty := IsEmpty();
      if empty {
        NonePending(node[..], readIndex, writeIndex, dataOffset);
        NothingCopied(b0, at);
        return 0;
      }
      var readOffset: nat := 0;
      var last := false;
      NothingCopied(b0, at);
      var first := true;    // do ... while
      while !last && (first || readOffset < size)
        invariant Valid() && readOffset <= size && readOffset <= |p| && Pending() == p[readOffset..]
        invariant completed + Queue() == all && |old(completed)| <= |completed|
        invariant buffer != null ==> at + size <= |b0| == buffer.Length && Copied(buffer[..], b0, at, p[..readOffset])
        invariant last <==> Queue() == []
        invariant first ==> readOffset == 0 && |Queue()| == |old(Queue())|
        invariant !first && size > 0 ==> readOffset > 0 || |Queue()| < |old(Queue())|
        decreases |Queue()|, size - readOffset, first
      {
        var n;
        ghost var before := if buffer == null then [] else buffer[..];
        n, last := ReadNode(buffer, at + readOffset, size - readOffset);
        Take(p, readOffset, n);
        if buffer != null {
          CopiedMore(buffer[..], before, b0, at, p, readOffset, n);
        }
        readOffset := readOffset + n;
        first := false;
      }
      if last {
        NonePending(node[..], readIndex, writeIndex, dataOffset);
      }
      result := if last then readOffset else size;
    }

    /** `rt_data_node_empty`: everything is reported and nothing is left. */
    method Empty()
      requires Valid()
      modifies `readIndex, `dataOffset, `completed
      ensures Valid() && Queue() == [] && completed == old(completed) + old(Queue())
    {
      hide Ring, Flat, Unread, Sound, Copied, Next;
      var empty := IsEmpty();
      while !empty
        invariant Valid() && completed + Queue() == old(completed + Queue()) && (empty <==> Queue() == [])
        decreases |Queue()|, |Pending()|
      {
        var n := Read(null, 0, 1024);
        empty := IsEmpty();
      }
    }

    method Copy(buffer: array<int>, at: nat, data: seq<int>, offset: nat, n: nat)
      requires offset + n <= |data| && at + n <= buffer.Length
      modifies buffer
      ensures Copied(buffer[..], old(buffer[..]), at, data[offset..offset + n])
    {
      forall i | 0 <= i < n {
        buffer[at + i] := data[offset + i];
      }
    }
  }

  lemma OffsetFits(b: seq<DataNode>, r: nat, w: nat, off: nat)
    requires r < |b| && w < |b| && (r == w ==> off == 0) && (r != w ==> off <= |b[r].data|)
    ensures off <= |Flat(Ring(b, r, w))|
  {
    if r != w {
      RingFront(b, r, w);
    }
  }

  lemma NonePending(node: seq<DataNode>, r: nat, w: nat, off: nat)
    requires Sound(node, r, w, off) && Ring(node, r, w) == []
    ensures Unread(node, r, w, off) == []
  {
  }

  lemma NothingCopied(b: seq<int>, at: nat)
    ensures at <= |b| ==> Copied(b, b, at, [])
  {
  }

  /** `n` bytes have been taken off the pending bytes `p`. */
  lemma Take(p: seq<int>, n: nat, k: nat)
    requires n <= |p| && k <= |p[n..]|
    ensures p[n..][k..] == p[n + k..] && p[..n] + p[n..][..k] == p[..n + k]
  {
  }

  lemma CopiedMore(c: seq<int>, b: seq<int>, a: seq<int>, at: nat, p: seq<int>, n: nat, k: nat)
    requires n <= |p| && k <= |p[n..]| && Copied(b, a, at, p[..n]) && Copied(c, b, at + n, p[n..][..k])
    ensures Copied(c, a, at, p[..n + k])
  {
    assert p[..n + k] == p[..n] + p[n..][..k];
    assert b[..at + n] == a[..at] + p[..n];
    assert b[at + n + k..] == a[at + n + k..];
  }

  lemma InRing(node: seq<DataNode>, r: nat, w: nat, off: nat)
    requires Sound(node, r, w, off)
    ensures r < |node| && w < |node| && (r != w ==> off <= |node[r].data|)
  {
  }

  lemma Fifo(done: seq<DataNode>, d: DataNode, q: seq<DataNode>)
    ensures done + [d] + q == done + ([d] + q)
  {
  }

  /** The bytes `w` stand at `at`; the rest is as in `b`. */
  ghost predicate Copied(c: seq<int>, b: seq<int>, at: nat, w: seq<int>) {
    at + |w| <= |b| && c == b[..at] + w + b[at + |w|..]
  }

  /** The pending bytes begin with those left of the oldest buffer. */
  lemma OldestFirst(q: seq<DataNode>, off: nat, n: nat)
    requires q != [] && off + n <= |q[0].data|
    ensures var p := Flat(q)[off..];
      n <= |p| && p[..n] == q[0].data[off..off + n] && p[n..] == Flat(q)[off + n..]
    ensures off + n == |q[0].data| ==> Flat(q)[off + n..] == Flat(q[1..])
  {
  }
}
