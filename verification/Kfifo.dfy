/**
 The byte queue of the serial drivers: a ring whose size is a power of two and
 whose two indices run freely through all 32-bit values.
 */
module Kfifo {
  import Seqs
  import opened Arith
  import opened Bits

  /** The place in a ring that an index stands for. */
  function Slot(x: nat, size: nat): (r: nat)
    ensures size > 0 ==> r < size
  {
    if size == 0 then 0 else x % size
  }

  /** The place after `k` steps from `r` in a ring. */
  function Wrap(r: nat, k: nat, size: nat): nat
    requires r < size && k <= size
  {
    if r + k < size then r + k else r + k - size
  }

  /** Steps from any index, taken modulo the size. */
  lemma ModWrap(x: nat, k: nat, size: nat)
    requires 0 < size && k <= size
    ensures x % size < size && (x + k) % size == Wrap(x % size, k, size)
  {
    var q, r := x / size, x % size;
    assert x == size * q + r;
    Next(size, q);
    if r + k < size {
      ModIs(x + k, size, q, r + k);
    } else {
      ModIs(x + k, size, q + 1, r + k - size);
    }
  }

  lemma Next(d: nat, q: nat)
    ensures d * (q + 1) == d * q + d
  {
  }

  lemma ModMod(x: nat, s: nat, p: nat)
    requires s * p > 0 && s > 0
    ensures x % (s * p) % s == x % s
  {
    var q, y := x / (s * p), x % (s * p);
    assert x == (s * p) * q + y && y == s * (y / s) + y % s;
    Regroup(s, p, q);
    Distribute(s, p * q, y / s);
    ModIs(x, s, p * q + y / s, y % s);
  }

  lemma Regroup(a: nat, b: nat, c: nat)
    ensures (a * b) * c == a * (b * c)
  {
  }

  lemma Distribute(a: nat, b: nat, c: nat)
    ensures a * (b + c) == a * b + a * c
  {
  }

  /** The size divides the range of the registers, so an index may overflow. */
  lemma ModWord(x: nat, n: nat)
    requires n < 32
    ensures U32(x) % Pow2(n) == x % Pow2(n)
  {
    hide Pow2;
    Pow2Divides(n);
    ModMod(x, Pow2(n), Pow2(32 - n));
  }

  /** Used and free bytes in wrapping arithmetic, and where the bytes begin and end. */
  lemma Places(first: nat, next: nat, n: nat)
    requires n < 32 && first < WORD && next < WORD && U32(next - first) <= Pow2(n) < WORD
    ensures var s, used := Pow2(n), U32(next - first);
      && U32(s - next + first) == s - used && Slot(first, s) < s
      && And(first, s - 1) == Slot(first, s) && And(next, s - 1) == Wrap(Slot(first, s), used, s) < s
  {
    hide Pow2, And, Wrap;
    var used := U32(next - first);
    assert next == U32(first + used) && U32(Pow2(n) - next + first) == Pow2(n) - used;
    AndMask(first, n);
    AndMask(next, n);
    ModWord(first + used, n);
    ModWrap(first, used, Pow2(n));
  }

  /** The same for a ring that may have no bytes at all. */
  lemma PlacesAny(first: nat, next: nat, size: nat, n: nat)
    requires n < 32 && first < WORD && next < WORD && U32(next - first) <= size && (size == 0 || size == Pow2(n))
    ensures var used := U32(next - first);
      && size < WORD && U32(size - next + first) == size - used
      && (size > 0 ==>
            && U32(size - 1) == size - 1 && Slot(first, size) < size
            && And(first, U32(size - 1)) == Slot(first, size)
            && And(next, U32(size - 1)) == Wrap(Slot(first, size), used, size) < size)
  {
    hide Pow2, And, Wrap, Slot, U32;
    Pow2Less(n);
    FreeBytes(first, next, size);
    if size > 0 {
      Same(size - 1);
      Places(first, next, n);
    }
  }

  lemma Same(x: nat)
    requires x < WORD
    ensures U32(x) == x
  {
  }

  lemma FreeBytes(first: nat, next: nat, size: nat)
    requires first < WORD && next < WORD && U32(next - first) <= size < WORD
    ensures U32(size - next + first) == size - U32(next - first)
  {
    assert size - next + first == size - U32(next - first) || size - next + first == size - U32(next - first) + WORD
           || size - next + first == size - U32(next - first) - WORD;
  }

  /** The mask gives the size back, that of an empty ring as well. */
  lemma MaskSize(size: nat, used: nat)
    requires used <= size < WORD
    ensures U32(U32(U32(size - 1) + 1) - used) == size - used
  {
    if size > 0 {
      Same(size - 1);
      Same(size);
      Same(size - used);
    } else {
      assert U32(-1) == WORD - 1 && U32(WORD) == 0;
    }
  }

  lemma Pow2Less(n: nat)
    requires n < 32
    ensures 0 < Pow2(n) < WORD
  {
    Pow2Divides(n);
    PowSteps(31 - n);
    TimesTwo(Pow2(n), Pow2(31 - n));
  }

  /** The index `in` moved by `len`. */
  lemma MovedIn(first: nat, next: nat, len: nat)
    requires first < WORD && next < WORD && U32(next - first) + len < WORD
    ensures U32(U32(next + len) - first) == U32(next - first) + len
  {
  }

  /** The index `out` moved by `len`. */
  lemma MovedOut(first: nat, next: nat, len: nat, n: nat)
    requires first < WORD && next < WORD && len <= U32(next - first) && len <= Pow2(n) && n < 32
    ensures U32(next - U32(first + len)) == U32(next - first) - len
    ensures var s := Pow2(n); Slot(first, s) < s && Slot(U32(first + len), s) == Wrap(Slot(first, s), len, s)
  {
    hide Pow2, Wrap, U32;
    ModWord(first + len, n);
    ModWrap(first, len, Pow2(n));
    MovedFirst(first, next, len);
  }

  lemma MovedFirst(first: nat, next: nat, len: nat)
    requires first < WORD && next < WORD && len <= U32(next - first)
    ensures U32(next - U32(first + len)) == U32(next - first) - len
  {
  }

  lemma Pow2Divides(n: nat)
    requires n < 32
    ensures Pow2(n) * Pow2(32 - n) == WORD
  {
    Pow2Cat(n, 32 - n);
    Pow2Word();
  }

  /** The `n` bytes of a ring from `out` on. */
  function Window(b: seq<int>, r: nat, n: nat): (w: seq<int>)
    requires n == 0 || (r < |b| && n <= |b|)
    ensures |w| == n
  {
    seq(n, i requires 0 <= i < n => b[Wrap(r, i, |b|)])
  }

  /** Byte `i` of a window stands `i` places behind its first, around the end of the ring. */
  lemma WindowAt(b: seq<int>, r: nat, n: nat, i: nat)
    requires r < |b| && n <= |b| && i < n
    ensures Window(b, r, n)[i] == b[(r + i) % |b|]
  {
    if r + i < |b| {
      ModIs(r + i, |b|, 0, r + i);
    } else {
      ModIs(r + i, |b|, 1, r + i - |b|);
    }
  }

  /** The ring with `data` written from `r` on, in the two pieces. */
  ghost predicate Stored(c: seq<int>, b: seq<int>, r: nat, data: seq<int>) {
    && r < |b| == |c| && |data| <= |b|
    && (forall i :: 0 <= i < |data| ==> c[Wrap(r, i, |b|)] == data[i])
    && forall k :: |data| <= k < |b| ==> c[Wrap(r, k, |b|)] == b[Wrap(r, k, |b|)]
  }

  /** Bytes written behind the last one are appended. */
  lemma StoredAppends(c: seq<int>, b: seq<int>, r: nat, n: nat, data: seq<int>)
    requires r < |b| && n + |data| <= |b| && Stored(c, b, Wrap(r, n, |b|), data)
    ensures Window(c, r, n + |data|) == Window(b, r, n) + data
  {
    var size := |b|;
    var e := Wrap(r, n, size);
    forall i | 0 <= i < n + |data|
      ensures Window(c, r, n + |data|)[i] == (Window(b, r, n) + data)[i]
    {
      if i < n {
        assert Wrap(r, i, size) == Wrap(e, size - n + i, size);
      } else {
        assert Wrap(r, i, size) == Wrap(e, i - n, size);
      }
    }
  }

  class Fifo {
    const buffer: array<int>
    const size: nat
    const mask: nat
    ghost const n: nat    // the exponent of the size
    var first: nat        // the index `out`
    var next: nat         // the index `in`

    ghost predicate Valid()
      reads this
    {
      && n < 32 && (size == 0 || size == Pow2(n)) && size == buffer.Length && mask == U32(size - 1)
      && first < WORD && next < WORD && U32(next - first) <= size
    }

    /** The bytes put in and not yet taken out. */
    ghost function Contents(): (q: seq<int>)
      requires Valid()
      reads this, buffer
    {
      Window(buffer[..], Slot(first, size), U32(next - first))
    }

    /** An empty ring; the indices may stand anywhere. */
    constructor (buffer: array<int>, ghost n: nat, start: nat)
      requires n < 32 && (buffer.Length == 0 || buffer.Length == Pow2(n)) && start < WORD
      ensures Valid() && Contents() == [] && this.buffer == buffer && size == buffer.Length
    {
      this.buffer, this.n, size, mask := buffer, n, buffer.Length, U32(buffer.Length - 1);
      first, next := start, start;
    }

    /** `kfifo_data_size` */
    function DataSize(): (used: nat)
      requires Valid()
      reads this, buffer
      ensures used == |Contents()| <= size
    {
      U32(next - first)
    }

    /** `kfifo_unused` */
    function Unused(): (free: nat)
      requires Valid()
      reads this, buffer
      ensures DataSize() + free == size
    {
      hide U32, Fifo.Valid;
      SizeWord();
      MaskSize(size, U32(next - first));
      U32(U32(mask + 1) - U32(next - first))
    }

    lemma SizeWord()
      requires Valid()
      ensures size < WORD && mask == U32(size - 1) && U32(next - first) <= size
    {
      hide U32;
      Pow2Less(n);
    }

    /** The two copies of `kfifo_put` */
    method CopyIn(data: seq<int>, r: nat)
      requires size == buffer.Length < WORD && |data| <= size && (data == [] || r < size)
      modifies buffer
      ensures r < size ==> Stored(buffer[..], old(buffer[..]), r, data)
    {
      var l := Min(|data|, U32(size - r));
      ghost var b := buffer[..];
      forall i | 0 <= i < l {
        buffer[r + i] := data[i];
      }
      forall i | 0 <= i < |data| - l {
        buffer[i] := data[l + i];
      }
      if r < size {
        StoredInTwo(buffer[..], b, r, data, l);
      }
    }

    /** `kfifo_copy_out`, from place `r` on */
    method CopyOut(dst: array<int>, len: nat, r: nat)
      requires size == buffer.Length < WORD && len <= size && (len == 0 || r < size) && len <= dst.Length
        && dst != buffer
      modifies dst
      ensures dst[..] == Window(buffer[..], r, len) + old(dst[len..])
    {
      var l := Min(len, U32(size - r));
      forall i | 0 <= i < l {
        dst[i] := buffer[r + i];
      }
      forall i | 0 <= i < len - l {
        dst[l + i] := buffer[i];
      }
    }

    /** The part of `kfifo_put` after the length is known */
    method Append(data: seq<int>)
      requires Valid() && U32(next - first) + |data| <= size < WORD
      modifies this`next, buffer
      ensures Valid() && Contents() == old(Contents()) + data
    {
      hide Window, Stored, Pow2, And, Wrap, U32, Min, Slot;
      PlacesAny(first, next, size, n);
      ghost var b, used := buffer[..], U32(next - first);
      CopyIn(data, And(next, U32(size - 1)));
      if size > 0 {
        StoredAppends(buffer[..], b, Slot(first, size), used, data);
      } else {
        NoWindow(buffer[..], b, Slot(first, size));
      }
      MovedIn(first, next, |data|);
      next := U32(next + |data|);
    }

    /** `kfifo_put`: as much as there is room for is appended. */
    method Put(data: seq<int>) returns (len: nat)
      requires Valid() && |data| < WORD
      modifies this`next, buffer
      ensures Valid() && len == Min(|data|, size - |old(Contents())|)
      ensures Contents() == old(Contents()) + data[..len]
    {
      hide Window, Pow2, And, Wrap, U32, Min, Slot;
      PlacesAny(first, next, size, n);
      len := Min(|data|, U32(size - next + first));
      Append(data[..len]);
    }

    /** `kfifo_get`: the first bytes, as many as there are up to `want`, are taken out. */
    method Get(dst: array<int>, want: nat) returns (len: nat)
      requires Valid() && want < WORD && want <= dst.Length && dst != buffer
      modifies this`first, dst
      ensures Valid() && len == Min(want, |old(Contents())|)
      ensures dst[..] == old(Contents())[..len] + old(dst[len..])
      ensures Contents() == old(Contents())[len..]
    {
      hide Window, Pow2, And, Wrap, U32, Min, Slot;
      PlacesAny(first, next, size, n);
      ghost var used := DataSize();
      len := Min(want, U32(next - first));
      CopyOut(dst, len, And(first, U32(size - 1)));
      Departs(buffer[..], first, next, len, size, n, And(first, U32(size - 1)));
      first := U32(first + len);
    }

    /** `kfifo_out_peek`: what `Get` would give, without taking it. */
    method Peek(dst: array<int>, want: nat) returns (len: nat)
      requires Valid() && want < WORD && want <= dst.Length && dst != buffer
      modifies dst
      ensures Valid() && len == Min(want, |Contents()|) && Contents() == old(Contents())
      ensures dst[..] == Contents()[..len] + old(dst[len..])
    {
      hide Window, Pow2, And, Wrap, U32, Min, Slot;
      PlacesAny(first, next, size, n);
      len := U32(next - first);
      if len > want {
        len := want;
      }
      CopyOut(dst, len, And(first, mask));
      Departs(buffer[..], first, next, len, size, n, And(first, mask));
    }
  }

  lemma NoWindow(c: seq<int>, b: seq<int>, r: nat)
    ensures Window(c, r, 0) == Window(b, r, 0) + []
  {
  }

  /** The window without its first bytes, and where it begins then. */
  lemma Departs(b: seq<int>, first: nat, next: nat, len: nat, size: nat, n: nat, r: nat)
    requires n < 32 && first < WORD && next < WORD && len <= U32(next - first) <= size == |b|
    requires size == 0 || (size == Pow2(n) && r == Slot(first, size) < size)
    ensures var used := U32(next - first);
      && U32(next - U32(first + len)) == used - len
      && Window(b, Slot(first, size), used)[..len] == Window(b, r, len)
      && Window(b, Slot(first, size), used)[len..] == Window(b, Slot(U32(first + len), size), used - len)
  {
    hide Pow2, Wrap, U32, Slot;
    MovedFirst(first, next, len);
    if size > 0 {
      MovedOut(first, next, len, n);
      WindowSplit(b, Slot(first, size), len, U32(next - first));
    }
  }

  lemma TimesTwo(a: nat, b: nat)
    requires b > 0 && a * (2 * b) == WORD
    ensures 0 < a < WORD
  {
    assert a * (2 * b) == 2 * (a * b);
    if a > 0 {
      Gap(0, b, a);
    }
  }

  /** Two copies, the second from the beginning of the ring. */
  lemma StoredInTwo(c: seq<int>, b: seq<int>, r: nat, data: seq<int>, l: nat)
    requires r < |b| == |c| && l == Min(|data|, |b| - r) && |data| <= |b|
    requires forall i :: 0 <= i < |b| ==> c[i] == if i < |data| - l then data[l + i]
      else if r <= i < r + l then data[i - r] else b[i]
    ensures Stored(c, b, r, data)
  {
  }

  /** The first bytes of a window, and the window without them. */
  lemma WindowSplit(b: seq<int>, r: nat, k: nat, n: nat)
    requires r < |b| && k <= n <= |b|
    ensures Window(b, r, n)[..k] == Window(b, r, k)
    ensures Wrap(r, k, |b|) < |b| && Window(b, r, n)[k..] == Window(b, Wrap(r, k, |b|), n - k)
  {
  }

  /** `kfifo_init`: `BUG_ON` lets exactly zero and the powers of two pass. */
  method Init(buffer: array<int>, size: nat) returns (f: Fifo?)
    requires size == buffer.Length < WORD
    ensures f != null <==> size == 0 || exists n: nat :: size == Pow2(n)
    ensures f != null ==> f.Valid() && f.size == size && f.buffer == buffer && f.Contents() == [] && fresh(f)
  {
    hide And, Pow2;
    ZeroAnd(U32(size - 1));
    if size > 0 {
      PowerTest(size);
    }
    if And(size, U32(size - 1)) != 0 {
      return null;
    }
    ghost var n: nat := 0;
    if size > 0 {
      n :| size == Pow2(n);
      Exponent(n);
    }
    f := new Fifo(buffer, n, 0);
  }

  lemma ZeroAnd(x: nat)
    ensures And(0, x) == 0
  {
  }

  lemma Exponent(n: nat)
    requires Pow2(n) < WORD
    ensures n < 32
  {
    if n >= 32 {
      Pow2Word();
      Pow2Monotone(32, n);
    }
  }

  // ----- any run -----

  datatype Op = PutOp(data: seq<int>) | GetOp(want: nat)

  predicate OpOk(op: Op) {
    match op
    case PutOp(data) => |data| < WORD
    case GetOp(want) => want < WORD
  }

  /** A bounded queue: what comes out, what was taken in, and what is left. */
  datatype Served = Served(got: seq<int>, taken: seq<int>, left: seq<int>)

  function Serve(q: seq<int>, size: nat, ops: seq<Op>): Served
    requires |q| <= size
    decreases |ops|
  {
    if ops == [] then Served([], [], q)
    else match ops[0]
      case PutOp(data) =>
        var n := Min(|data|, size - |q|);
        var r := Serve(q + data[..n], size, ops[1..]);
        r.(taken := data[..n] + r.taken)
      case GetOp(want) =>
        var n := Min(want, |q|);
        var r := Serve(q[n..], size, ops[1..]);
        r.(got := q[..n] + r.got)
  }

  /** What comes out, and then what is left, is what was there and what was taken in, in order. */
  lemma {:induction false} ServeKept(q: seq<int>, size: nat, ops: seq<Op>)
    requires |q| <= size
    ensures var r := Serve(q, size, ops); q + r.taken == r.got + r.left && |r.left| <= size
    decreases |ops|
  {
    if ops != [] {
      match ops[0]
      case PutOp(data) =>
        var n := Min(|data|, size - |q|);
        ServeKept(q + data[..n], size, ops[1..]);
        Seqs.Assoc(q, data[..n], Serve(q + data[..n], size, ops[1..]).taken);
      case GetOp(want) =>
        var n := Min(want, |q|);
        var r := Serve(q[n..], size, ops[1..]);
        ServeKept(q[n..], size, ops[1..]);
        assert q == q[..n] + q[n..];
        Seqs.Assoc(q[..n], q[n..], r.taken);
        Seqs.Assoc(q[..n], r.got, r.left);
    }
  }

  /** One operation on the ring. */
  method Perform(f: Fifo, op: Op) returns (out: seq<int>)
    requires f.Valid() && OpOk(op)
    modifies f, f.buffer
    ensures f.Valid() && |f.Contents()| <= f.size && |old(f.Contents())| <= f.size
    ensures match op
      case PutOp(data) =>
        out == [] && f.Contents() == old(f.Contents()) + data[..Min(|data|, f.size - |old(f.Contents())|)]
      case GetOp(want) =>
        var n := Min(want, |old(f.Contents())|);
        out == old(f.Contents())[..n] && f.Contents() == old(f.Contents())[n..]
  {
    hide Fifo.Contents, Min, Pow2, U32;
    out := [];
    ghost var used := f.DataSize();
    match op {
      case PutOp(data) => var len := f.Put(data);
      case GetOp(want) =>
        var dst := new int[want];
        var len := f.Get(dst, want);
        out := dst[..len];
    }
    used := f.DataSize();
  }

  /** Any run of operations, from any state of the ring, does what the queue does. */
  method Run(f: Fifo, ops: seq<Op>) returns (got: seq<int>)
    requires f.Valid() && forall i :: 0 <= i < |ops| ==> OpOk(ops[i])
    modifies f, f.buffer
    ensures f.Valid() && |old(f.Contents())| <= f.size
    ensures var r := Serve(old(f.Contents()), f.size, ops); got == r.got && f.Contents() == r.left
  {
    hide *;
    got := [];
    ghost var r, used := Served([], [], []), f.DataSize();
    r := Serve(f.Contents(), f.size, ops);
    assert ops[0..] == ops && [] + r.got == r.got;
    var i := 0;
    while i < |ops|
      invariant i <= |ops| && f.Valid() && |f.Contents()| <= f.size
      invariant var s := Serve(f.Contents(), f.size, ops[i..]); r.got == got + s.got && r.left == s.left
    {
      ghost var q := f.Contents();
      var out := Perform(f, ops[i]);
      ServeStep(q, f.size, ops, i, f.Contents(), out);
      Seqs.Assoc(got, out, Serve(f.Contents(), f.size, ops[i + 1..]).got);
      got, i := got + out, i + 1;
    }
    ServeNone(f.Contents(), f.size, ops);
    assert got + [] == got;
  }

  lemma ServeNone(q: seq<int>, size: nat, ops: seq<Op>)
    requires |q| <= size
    ensures Serve(q, size, ops[|ops|..]) == Served([], [], q)
  {
  }

  lemma ServeStep(q: seq<int>, size: nat, ops: seq<Op>, i: nat, left: seq<int>, out: seq<int>)
    requires i < |ops| && |q| <= size && |left| <= size
    requires match ops[i]
      case PutOp(data) => out == [] && left == q + data[..Min(|data|, size - |q|)]
      case GetOp(want) => var n := Min(want, |q|); out == q[..n] && left == q[n..]
    ensures var r, s := Serve(q, size, ops[i..]), Serve(left, size, ops[i + 1..]);
      r.got == out + s.got && r.left == s.left
  {
    assert ops[i..][0] == ops[i] && ops[i..][1..] == ops[i + 1..];
  }
}
