/**
 One writer and one reader of the node ring, interleaved in any way between
 the sections in which interrupts are disabled.
 */
module AudioSteps {
  import opened Arith
  import opened AudioRing

  /** Where the writer is: between calls, or behind the check that there is room, about to store the node. */
  datatype Writer = WIdle | WReady(buffer: DataNode, at: nat, next: nat)

  /**
   Where the reader is: between calls; about to copy from the oldest node, `left` bytes still wanted; with that node
   copied to its end; behind the callback; behind the second look at the indices.
   */
  datatype Reader = RIdle | RCopy(left: nat) | REnd(left: nat) | RCalled(left: nat) | RLooked(left: nat, write: nat)

  /** The ring, the two sides, and what has been accepted, delivered and reported so far. */
  datatype State = State(
    node: seq<DataNode>, readIndex: nat, writeIndex: nat, dataOffset: nat,
    writer: Writer, reader: Reader,
    accepted: seq<DataNode>, out: seq<int>, completed: seq<DataNode>, gone: nat
  )

  datatype Step = Try(buffer: DataNode) | Publish | Start(size: nat) | CopyPart | Call | Look | Advance

  function Init(n: nat): State {
    State(seq(n, _ => DataNode(0, [])), 0, 0, 0, WIdle, RIdle, [], [], [], 0)
  }

  function N(s: State): nat {
    |s.node|
  }

  // ----- the steps -----

  /** First section of `rt_data_node_write`: both indices are read, and the call fails if there is no room. */
  function TryStep(s: State, buffer: DataNode): State
    requires s.writer.WIdle?
  {
    var next := Next(s.writeIndex, N(s));
    if next == s.readIndex then s else s.(writer := WReady(buffer, s.writeIndex, next))
  }

  /** Second section: the node is stored and the new index published. */
  function PublishStep(s: State): State
    requires s.writer.WReady?
  {
    if s.writer.at >= N(s) then s
    else
      var b := s.writer.buffer;
      s.(node := s.node[s.writer.at := b], writeIndex := s.writer.next, accepted := s.accepted + [b], writer := WIdle)
  }

  /** First section of `rt_data_node_read`. */
  function StartStep(s: State, size: nat): State
    requires s.reader.RIdle?
  {
    if s.readIndex == s.writeIndex then s else s.(reader := RCopy(size))
  }

  /** The copy of what fits of the oldest node. */
  function CopyStep(s: State): State
    requires s.reader.RCopy?
  {
    if s.readIndex >= N(s) then s
    else
      var d, left := s.node[s.readIndex].data, s.reader.left;
      var remain := if |d| > s.dataOffset then |d| - s.dataOffset else 0;
      var n := if left > remain then remain else left;
      var off := s.dataOffset + n;
      var s' := s.(out := s.out + (if off <= |d| then d[s.dataOffset..off] else []), dataOffset := off);
      if off >= |d| then s'.(reader := REnd(left - n))
      else s'.(reader := RIdle)
  }

  /** The callback for a node read to its end. */
  function CallStep(s: State): State
    requires s.reader.REnd?
  {
    if s.readIndex >= N(s) then s
    else s.(completed := s.completed + [s.node[s.readIndex]], reader := RCalled(s.reader.left))
  }

  /** The section behind the callback, in which the indices are read again. */
  function LookStep(s: State): State
    requires s.reader.RCalled?
  {
    s.(reader := RLooked(s.reader.left, s.writeIndex))
  }

  /** The section in which the node leaves; the call ends when it has its bytes or has seen no further node. */
  function AdvanceStep(s: State): State
    requires s.reader.RLooked?
  {
    var next := Next(s.readIndex, N(s));
    s.(readIndex := next, dataOffset := 0, gone := s.gone + 1,
       reader := if next == s.reader.write || s.reader.left == 0 then RIdle else RCopy(s.reader.left))
  }

  /** A step of one side; it changes nothing where that side is not ready for it. */
  function Apply(s: State, step: Step): State {
    match step
    case Try(buffer) => if s.writer.WIdle? then TryStep(s, buffer) else s
    case Publish => if s.writer.WReady? then PublishStep(s) else s
    case Start(size) => if s.reader.RIdle? then StartStep(s, size) else s
    case CopyPart => if s.reader.RCopy? then CopyStep(s) else s
    case Call => if s.reader.REnd? then CallStep(s) else s
    case Look => if s.reader.RCalled? then LookStep(s) else s
    case Advance => if s.reader.RLooked? then AdvanceStep(s) else s
  }

  function Run(s: State, steps: seq<Step>): State
    decreases |steps|
  {
    if steps == [] then s else Run(Apply(s, steps[0]), steps[1..])
  }

  // ----- the invariant -----

  /** Nodes are counted from the first one: `gone` have left, `|accepted|` have been stored. */
  ghost predicate Indices(s: State) {
    && N(s) > 0 && s.gone <= |s.accepted| < s.gone + N(s)
    && s.readIndex == s.gone % N(s) && s.writeIndex == |s.accepted| % N(s)
    && forall i :: s.gone <= i < |s.accepted| ==> s.node[i % N(s)] == s.accepted[i]
  }

  /** The writer that has seen room still has it. */
  ghost predicate WriterOk(s: State)
    requires N(s) > 0
  {
    s.writer.WReady? ==> s.writer.at == s.writeIndex && s.writer.next == Next(s.writeIndex, N(s))
                         && |s.accepted| + 1 < s.gone + N(s)
  }

  /** How far the oldest node has been read. */
  ghost predicate ReaderOk(s: State)
    requires N(s) > 0 && s.gone <= |s.accepted|
  {
    match s.reader
    case RIdle =>
      if s.gone == |s.accepted| then s.dataOffset == 0
      else s.dataOffset == 0 || s.dataOffset < |s.accepted[s.gone].data|
    case RCopy(_) => s.gone < |s.accepted| && (s.dataOffset == 0 || s.dataOffset < |s.accepted[s.gone].data|)
    case REnd(_) => s.gone < |s.accepted| && s.dataOffset == |s.accepted[s.gone].data|
    case RCalled(_) => s.gone < |s.accepted| && s.dataOffset == |s.accepted[s.gone].data|
    case RLooked(_, write) =>
      && s.gone < |s.accepted| && s.dataOffset == |s.accepted[s.gone].data|
      && exists seen :: s.gone < seen <= |s.accepted| && write == seen % N(s)
  }

  function Calls(s: State): nat {
    if s.reader.RCalled? || s.reader.RLooked? then s.gone + 1 else s.gone
  }

  /** What was delivered: all of the nodes that left, and the part of the oldest one. */
  ghost predicate Delivered(s: State)
    requires s.gone <= |s.accepted|
  {
    s.out == Flat(s.accepted[..s.gone])
             + (if s.gone < |s.accepted| && s.dataOffset <= |s.accepted[s.gone].data|
                then s.accepted[s.gone].data[..s.dataOffset] else [])
  }

  ghost predicate Inv(s: State) {
    && N(s) > 0 && Indices(s) && WriterOk(s) && ReaderOk(s) && Delivered(s)
    && Calls(s) <= |s.accepted| && s.completed == s.accepted[..Calls(s)]
  }

  // ----- arithmetic of the indices -----

  lemma NextIs(i: nat, n: nat)
    requires n > 0
    ensures Next(i % n, n) == (i + 1) % n
  {
    var q, r := i / n, i % n;
    assert i == q * n + r;
    if r + 1 == n {
      assert i + 1 == (q + 1) * n;
      ModIs(i + 1, n, q + 1, 0);
    } else {
      ModIs(i + 1, n, q, r + 1);
    }
  }

  /** Two counts less than a round apart with the same index are the same. */
  lemma SameIndex(a: nat, b: nat, n: nat)
    requires n > 0 && a <= b < a + n && a % n == b % n
    ensures a == b
  {
    var p, q := a / n, b / n;
    assert a == p * n + a % n && b == q * n + b % n;
    if p < q { Gap(p, q, n); }
  }

  /** A ring with all its slots but one in use is full. */
  lemma FullIs(gone: nat, stored: nat, n: nat)
    requires n > 0 && gone <= stored < gone + n && stored + 1 == gone + n
    ensures Next(stored % n, n) == gone % n
  {
    NextIs(stored, n);
    ModIs(stored + 1, n, gone / n + 1, gone % n);
  }

  // ----- every step keeps the invariant -----

  lemma InitOk(n: nat)
    requires n > 0
    ensures Inv(Init(n))
  {
  }

  lemma TryOk(s: State, buffer: DataNode)
    requires Inv(s) && s.writer.WIdle?
    ensures Inv(TryStep(s, buffer))
  {
    hide Next, Flat;
    if |s.accepted| + 1 == s.gone + N(s) {
      FullIs(s.gone, |s.accepted|, N(s));
    }
  }

  /** The slot that is written holds no unread node. */
  lemma NoOverwrite(s: State)
    requires Inv(s) && s.writer.WReady?
    ensures forall i :: s.gone <= i < |s.accepted| ==> i % N(s) != s.writer.at
  {
    forall i | s.gone <= i < |s.accepted|
      ensures i % N(s) != s.writer.at
    {
      if i % N(s) == s.writer.at {
        SameIndex(i, |s.accepted|, N(s));
      }
    }
  }

  lemma PublishOk(s: State)
    requires Inv(s) && s.writer.WReady?
    ensures Inv(PublishStep(s))
  {
    NoOverwrite(s);
    NextIs(|s.accepted|, N(s));
    var t := PublishStep(s);
    assert t.accepted[..t.gone] == s.accepted[..s.gone];
    assert t.accepted[..Calls(t)] == s.accepted[..Calls(s)];
    if s.reader.RLooked? {
      var seen :| s.gone < seen <= |s.accepted| && s.reader.write == seen % N(s);
      assert seen <= |t.accepted|;
    }
  }

  lemma StartOk(s: State, size: nat)
    requires Inv(s) && s.reader.RIdle?
    ensures Inv(StartStep(s, size))
  {
  }

  lemma CopyOk(s: State)
    requires Inv(s) && s.reader.RCopy?
    ensures Inv(CopyStep(s))
  {
    hide Flat, Next;
    var d, off, left := s.node[s.readIndex].data, s.dataOffset, s.reader.left;
    assert s.node[s.readIndex] == s.accepted[s.gone];
    var n := if left > |d| - off then |d| - off else left;
    assert d[..off] + d[off..off + n] == d[..off + n];
    var before := Flat(s.accepted[..s.gone]);
    assert before + d[..off] + d[off..off + n] == before + d[..off + n];
  }

  lemma CallOk(s: State)
    requires Inv(s) && s.reader.REnd?
    ensures Inv(CallStep(s))
  {
    assert s.accepted[..s.gone + 1] == s.accepted[..s.gone] + [s.accepted[s.gone]];
  }

  lemma LookOk(s: State)
    requires Inv(s) && s.reader.RCalled?
    ensures Inv(LookStep(s))
  {
    assert s.writeIndex == |s.accepted| % N(s);
  }

  lemma AdvanceOk(s: State)
    requires Inv(s) && s.reader.RLooked?
    ensures Inv(AdvanceStep(s))
  {
    var t, d := AdvanceStep(s), s.accepted[s.gone];
    NextIs(s.gone, N(s));
    assert s.accepted[..s.gone + 1] == s.accepted[..s.gone] + [d];
    FlatCat(s.accepted[..s.gone], [d]);
    assert Flat([d]) == d.data + [] by { assert [d][1..] == []; }
    assert d.data[..|d.data|] == d.data;
    if t.reader.RCopy? {
      var seen :| s.gone < seen <= |s.accepted| && s.reader.write == seen % N(s);
      assert seen != s.gone + 1;
    }
  }

  lemma StepOk(s: State, step: Step)
    requires Inv(s)
    ensures Inv(Apply(s, step))
  {
    match step
    case Try(buffer) => if s.writer.WIdle? { TryOk(s, buffer); }
    case Publish => if s.writer.WReady? { PublishOk(s); }
    case Start(size) => if s.reader.RIdle? { StartOk(s, size); }
    case CopyPart => if s.reader.RCopy? { CopyOk(s); }
    case Call => if s.reader.REnd? { CallOk(s); }
    case Look => if s.reader.RCalled? { LookOk(s); }
    case Advance => if s.reader.RLooked? { AdvanceOk(s); }
  }

  lemma {:induction false} RunOk(s: State, steps: seq<Step>)
    requires Inv(s)
    ensures Inv(Run(s, steps))
    decreases |steps|
  {
    if steps != [] {
      StepOk(s, steps[0]);
      RunOk(Apply(s, steps[0]), steps[1..]);
    }
  }

  // ----- the property -----

  /**
   In every interleaving: the bytes delivered are a prefix of the accepted buffers, and the buffers reported are the
   first ones accepted, each once and in order; when the ring is empty and the reader is done, that is all of them.
   */
  lemma AnyInterleaving(n: nat, steps: seq<Step>)
    requires n > 0
    ensures var s := Run(Init(n), steps); s.out <= Flat(s.accepted) && s.completed <= s.accepted
    ensures var s := Run(Init(n), steps);
      s.reader.RIdle? && s.readIndex == s.writeIndex ==> s.out == Flat(s.accepted) && s.completed == s.accepted
  {
    InitOk(n);
    RunOk(Init(n), steps);
    var s := Run(Init(n), steps);
    DeliveredFirst(s);
    if s.readIndex == s.writeIndex {
      SameIndex(s.gone, |s.accepted|, N(s));
      assert s.accepted[..s.gone] == s.accepted;
    }
  }

  lemma DeliveredFirst(s: State)
    requires Inv(s)
    ensures s.out <= Flat(s.accepted)
  {
    assert s.accepted == s.accepted[..s.gone] + s.accepted[s.gone..];
    FlatCat(s.accepted[..s.gone], s.accepted[s.gone..]);
    if s.gone < |s.accepted| {
      var d := s.accepted[s.gone].data;
      assert s.accepted[s.gone..][0] == s.accepted[s.gone];
      assert Flat(s.accepted[s.gone..])[..|d|] == d;
    }
  }

  // ----- one side on its own -----

  lemma RunThen(s: State, a: Step, more: seq<Step>)
    ensures Run(s, [a] + more) == Run(Apply(s, a), more)
  {
    assert ([a] + more)[1..] == more;
  }

  lemma {:induction false} RunCat(s: State, a: seq<Step>, b: seq<Step>)
    ensures Run(s, a + b) == Run(Run(s, a), b)
    decreases |a|
  {
    if a == [] {
      assert a + b == b;
    } else {
      assert (a + b)[0] == a[0] && (a + b)[1..] == a[1..] + b;
      RunCat(Apply(s, a[0]), a[1..], b);
    }
  }

  /** A write that nobody interrupts takes the buffer exactly if a slot besides the one kept free is left. */
  lemma WriteAlone(s: State, buffer: DataNode)
    requires Inv(s) && s.writer.WIdle?
    ensures var t := Run(s, [Try(buffer), Publish]);
      && t.writer.WIdle? && t.out == s.out && t.completed == s.completed
      && t.accepted == if |s.accepted| - s.gone < N(s) - 1 then s.accepted + [buffer] else s.accepted
  {
    hide Inv;
    var u := Apply(s, Try(buffer));
    RunThen(s, Try(buffer), [Publish]);
    RunThen(u, Publish, []);
    assert [Try(buffer)] + [Publish] == [Try(buffer), Publish] && [Publish] + [] == [Publish];
    TrySees(s, buffer);
    TryOk(s, buffer);
    if u.writer.WReady? {
      Published(u);
    }
  }

  lemma TrySees(s: State, buffer: DataNode)
    requires Inv(s) && s.writer.WIdle?
    ensures var u := TryStep(s, buffer);
      if |s.accepted| - s.gone < N(s) - 1 then u.writer.WReady? && u.writer.buffer == buffer else u == s
  {
    hide Next, Flat;
    var n := N(s);
    if |s.accepted| - s.gone == n - 1 {
      FullIs(s.gone, |s.accepted|, n);
    } else if Next(s.writeIndex, n) == s.readIndex {
      NextIs(|s.accepted|, n);
      SameIndex(s.gone, |s.accepted| + 1, n);
    }
  }

  lemma Published(u: State)
    requires Inv(u) && u.writer.WReady?
    ensures var t := Apply(u, Publish);
      t.writer.WIdle? && t.out == u.out && t.completed == u.completed && t.accepted == u.accepted + [u.writer.buffer]
  {
  }

  /** What the copy does: it ends the read within the oldest buffer, or reads that to its end. */
  lemma CopySees(s: State)
    requires Inv(s) && s.reader.RCopy?
    ensures var t := CopyStep(s);
      var room := |s.accepted[s.gone].data| - s.dataOffset;
      && t.accepted == s.accepted && t.gone == s.gone
      && if s.reader.left < room then t.reader.RIdle? && |t.out| == |s.out| + s.reader.left
         else t.reader == REnd(s.reader.left - room) && |t.out| == |s.out| + room
  {
    hide Flat, Next;
  }

  /** The buffer leaves; the read goes on if bytes are wanted and there is another buffer. */
  lemma EndSees(s: State)
    requires Inv(s) && s.reader.REnd?
    ensures var t := Run(s, [Call, Look, Advance]);
      && Inv(t) && t.accepted == s.accepted && t.out == s.out && t.gone == s.gone + 1
      && t.reader == if t.gone == |t.accepted| || s.reader.left == 0 then RIdle else RCopy(s.reader.left)
  {
    hide Inv;
    CallOk(s);
    Called(s);
    var a := CallStep(s);
    var b := LookStep(a);
    var t := AdvanceStep(b);
    LookOk(a);
    AdvanceOk(b);
    RunThen(s, Call, [Look, Advance]);
    RunThen(a, Look, [Advance]);
    RunThen(b, Advance, []);
    assert [Call] + [Look, Advance] == [Call, Look, Advance] && [Look] + [Advance] == [Look, Advance];
    assert [Advance] + [] == [Advance];
    LastOne(s, b);
  }

  lemma Called(s: State)
    requires Inv(s) && s.reader.REnd?
    ensures CallStep(s).reader == RCalled(s.reader.left)
    ensures var a := CallStep(s);
      a == s.(completed := a.completed, reader := a.reader)
  {
  }

  lemma LastOne(s: State, b: State)
    requires Inv(s) && s.reader.REnd? && N(b) == N(s) && b.readIndex == s.readIndex
    ensures s.gone < |s.accepted| && (Next(b.readIndex, N(b)) == s.writeIndex <==> s.gone + 1 == |s.accepted|)
  {
    hide Next, Flat;
    NextIs(s.gone, N(s));
    if Next(s.readIndex, N(s)) == s.writeIndex {
      SameIndex(s.gone + 1, |s.accepted|, N(s));
    }
  }

  /** How many bytes have been delivered when all buffers but those from `gone` on have left. */
  lemma AllOut(s: State)
    requires Inv(s)
    ensures |s.out| <= |Flat(s.accepted)|
    ensures s.gone == |s.accepted| ==> s.out == Flat(s.accepted)
    ensures s.gone < |s.accepted| && s.dataOffset <= |s.accepted[s.gone].data| ==>
      |s.out| + |s.accepted[s.gone].data| - s.dataOffset <= |Flat(s.accepted)|
  {
    var d, e := s.accepted[..s.gone], s.accepted[s.gone..];
    assert s.accepted == d + e;
    FlatCat(d, e);
    if s.gone < |s.accepted| {
      assert e[0] == s.accepted[s.gone];
    } else {
      assert d == s.accepted;
    }
  }

  /** The rest of a read that nobody interrupts. */
  lemma {:induction false} ReadOn(s: State) returns (steps: seq<Step>)
    requires Inv(s) && s.reader.RCopy?
    ensures var t := Run(s, steps);
      && Inv(t) && t.reader.RIdle? && t.accepted == s.accepted
      && |t.out| == Min(|s.out| + s.reader.left, |Flat(s.accepted)|)
    decreases |s.accepted| - s.gone
  {
    hide Flat, Inv;
    var u := CopyStep(s);
    CopyOk(s);
    CopySees(s);
    HasOne(s);
    AllOut(s);
    AllOut(u);
    if u.reader.RIdle? {
      steps := [CopyPart] + [];
      RunThen(s, CopyPart, []);
    } else {
      var v := Run(u, [Call, Look, Advance]);
      EndSees(u);
      AllOut(v);
      RunThen(s, CopyPart, [Call, Look, Advance]);
      steps := [CopyPart] + [Call, Look, Advance];
      if v.reader.RCopy? {
        var more := ReadOn(v);
        RunCat(s, steps, more);
        steps := steps + more;
      }
    }
  }

  lemma HasOne(s: State)
    requires Inv(s) && s.reader.RCopy?
    ensures s.gone < |s.accepted| && s.dataOffset <= |s.accepted[s.gone].data|
  {
    hide Flat;
  }

  /** A read that nobody interrupts delivers exactly as many bytes as are wanted, or all there are. */
  lemma ReadAlone(s: State, size: nat) returns (steps: seq<Step>)
    requires Inv(s) && s.reader.RIdle?
    ensures var t := Run(s, steps);
      t.reader.RIdle? && t.accepted == s.accepted
        && t.out == Flat(s.accepted)[..Min(|s.out| + size, |Flat(s.accepted)|)]
  {
    hide Flat, Inv;
    var u := StartStep(s, size);
    StartOk(s, size);
    AllOut(s);
    if u == s {
      EmptySees(s);
      steps := [];
      DeliveredFirst(s);
    } else {
      var more := ReadOn(u);
      steps := [Start(size)] + more;
      RunThen(s, Start(size), more);
      DeliveredFirst(Run(u, more));
    }
  }

  lemma EmptySees(s: State)
    requires Inv(s) && s.readIndex == s.writeIndex
    ensures s.gone == |s.accepted|
  {
    SameIndex(s.gone, |s.accepted|, N(s));
    hide Flat;
  }
}
