/**
 Mono samples doubled into stereo frames in the same block: the source is the
 upper part of the destination.
 */
module MixerDouble {

  /** The words of `b` from pass `i` on: word `h + i`, as it is by then, goes to places `2 i` and `2 i + 1`. */
  function Passes(b: seq<int>, h: nat, i: nat, n: nat): (r: seq<int>)
    requires i <= n && 2 * n <= |b| && h + n <= |b|
    ensures |r| == |b|
    decreases n - i
  {
    if i == n then b
    else
      var c := b[2 * i := b[h + i]];
      Passes(c[2 * i + 1 := c[h + i]], h, i + 1, n)
  }

  /** Every source word stands twice, in order. */
  predicate Doubled(r: seq<int>, b: seq<int>, h: nat, n: nat)
    requires 2 * n <= |r| && h + n <= |b|
  {
    forall j :: 0 <= j < n ==> r[2 * j] == b[h + j] && r[2 * j + 1] == b[h + j]
  }

  /** `_mixer_single_channel_data_double_padding`, the source `h` words into the destination. */
  method DoublePadding(a: array<int>, h: nat, n: nat)
    requires 2 * n <= a.Length && h + n <= a.Length
    modifies a
    ensures a[..] == Passes(old(a[..]), h, 0, n)
  {
    var i := 0;
    while i < n
      invariant i <= n && Passes(a[..], h, i, n) == Passes(old(a[..]), h, 0, n)
    {
      ghost var b := a[..];
      a[2 * i] := a[h + i];
      ghost var c := a[..];
      assert c == b[2 * i := b[h + i]];
      a[2 * i + 1] := a[h + i];
      assert a[..] == c[2 * i + 1 := c[h + i]];
      i := i + 1;
    }
  }

  /** Up to pass `i` all is well, and the words still to be read are untouched. */
  lemma {:induction false} PassesRight(b: seq<int>, c: seq<int>, h: nat, i: nat, n: nat)
    requires i <= n <= h + 1 && 2 * n <= |b| && h + n <= |b| && |c| == |b|
    requires forall j :: 0 <= j < i ==> c[2 * j] == b[h + j] && c[2 * j + 1] == b[h + j]
    requires forall k :: 2 * i <= k < |b| ==> c[k] == b[k]
    ensures Doubled(Passes(c, h, i, n), b, h, n)
    decreases n - i
  {
    if i < n {
      var d := c[2 * i := c[h + i]];
      var e := d[2 * i + 1 := d[h + i]];
      assert c[h + i] == b[h + i];
      PassesRight(b, e, h, i + 1, n);
    }
  }

  /** Later passes leave the words below them alone. */
  lemma {:induction false} PassesKeep(c: seq<int>, h: nat, i: nat, n: nat)
    requires i <= n && 2 * n <= |c| && h + n <= |c|
    ensures forall k :: 0 <= k < 2 * i ==> Passes(c, h, i, n)[k] == c[k]
    decreases n - i
  {
    if i < n {
      var d := c[2 * i := c[h + i]];
      PassesKeep(d[2 * i + 1 := d[h + i]], h, i + 1, n);
    }
  }

  /** Pass `h` overwrites the word that pass `h + 1` is to read. */
  lemma {:induction false} PassesWrong(b: seq<int>, c: seq<int>, h: nat, i: nat, n: nat)
    requires i <= h && h + 2 <= n && 2 * n <= |b| && h + n <= |b| && |c| == |b| && b[2 * h] != b[2 * h + 1]
    requires forall k :: 2 * i <= k < |b| ==> c[k] == b[k]
    ensures !Doubled(Passes(c, h, i, n), b, h, n)
    decreases h - i
  {
    var d := c[2 * i := c[h + i]];
    var e := d[2 * i + 1 := d[h + i]];
    if i < h {
      PassesWrong(b, e, h, i + 1, n);
    } else {
      assert e[2 * h + 1] == b[2 * h];
      var f := e[2 * h + 2 := e[2 * h + 1]];
      var g := f[2 * h + 3 := f[2 * h + 1]];
      assert Passes(c, h, i, n) == Passes(e, h, h + 1, n) == Passes(g, h, h + 2, n);
      PassesKeep(g, h, h + 2, n);
      assert Passes(c, h, i, n)[2 * (h + 1)] == b[2 * h] != b[h + (h + 1)];
    }
  }

  /** Whatever the block holds, the doubling is right exactly if there is at most one word more than the offset. */
  lemma DoublingExact(h: nat, n: nat, len: nat)
    requires 2 * n <= len && h + n <= len
    ensures (forall b: seq<int> | |b| == len :: Doubled(Passes(b, h, 0, n), b, h, n)) <==> n <= h + 1
  {
    if n <= h + 1 {
      forall b: seq<int> | |b| == len
        ensures Doubled(Passes(b, h, 0, n), b, h, n)
      {
        PassesRight(b, b, h, 0, n);
      }
    } else {
      var b := seq(len, k requires 0 <= k < len => k);
      assert |b| == len;
      PassesWrong(b, b, h, 0, n);
    }
  }

  /** In a block of `2 * h` words, with the source in its second half, there are never more. */
  lemma HalfBlock(b: seq<int>, h: nat, n: nat)
    requires |b| == 2 * h && n <= h
    ensures Doubled(Passes(b, h, 0, n), b, h, n)
  {
    PassesRight(b, b, h, 0, n);
  }
}
