/**
 The checksum of the file system: CRC-32 from a table of sixteen entries, and
 its definition as a register that shifts one bit at a time.
 */
module Crc {

  const POLY: bv32 := 0xEDB88320

  const RTABLE: seq<bv32> := [
    0x00000000, 0x1db71064, 0x3b6e20c8, 0x26d930ac,
    0x76dc4190, 0x6b6b51f4, 0x4db26158, 0x5005713c,
    0xedb88320, 0xf00f9344, 0xd6d6a3e8, 0xcb61b38c,
    0x9b64c2b0, 0x86d3d2d4, 0xa00ae278, 0xbdbdf21c
  ]

  // ----- the definition -----

  function Xor(x: bv32, y: bv32): bv32 {
    x ^ y
  }

  function Half(x: bv32): bv32 {
    x >> 1
  }

  predicate Low(x: bv32) {
    x & 1 == 1
  }

  /** The register shifts by one; a bit that falls out is divided by the polynomial. */
  function Shift(c: bv32): bv32 {
    if Low(c) then Xor(Half(c), POLY) else Half(c)
  }

  /** One bit of the message enters. */
  function Feed(c: bv32, bit: bool): bv32 {
    Shift(Xor(c, if bit then 1 else 0))
  }

  function Serial(c: bv32, bits: seq<bool>): bv32
    decreases |bits|
  {
    if bits == [] then c else Serial(Feed(c, bits[0]), bits[1..])
  }

  /** The bits of a byte, the lowest first. */
  function ByteBits(b: bv8): (s: seq<bool>)
    ensures |s| == 8
  {
    [b & 1 != 0, b & 2 != 0, b & 4 != 0, b & 8 != 0, b & 16 != 0, b & 32 != 0, b & 64 != 0, b & 128 != 0]
  }

  function Message(data: seq<bv8>): (s: seq<bool>)
    ensures |s| == 8 * |data|
  {
    if data == [] then [] else ByteBits(data[0]) + Message(data[1..])
  }

  // ----- the table -----

  /** Four shifts at once. */
  function Shift4(c: bv32): bv32 {
    Shift(Shift(Shift(Shift(c))))
  }

  lemma XorHalf(x: bv32, y: bv32)
    ensures Half(Xor(x, y)) == Xor(Half(x), Half(y))
  {
  }

  lemma XorLow(x: bv32, y: bv32)
    ensures Low(Xor(x, y)) == (Low(x) != Low(y))
  {
  }

  lemma XorMoves(a: bv32, b: bv32, p: bv32)
    ensures Xor(Xor(a, p), b) == Xor(Xor(a, b), p) == Xor(a, Xor(b, p)) && Xor(Xor(a, p), Xor(b, p)) == Xor(a, b)
  {
  }

  /** Shifting is linear. */
  lemma Linear(x: bv32, y: bv32)
    ensures Shift(Xor(x, y)) == Xor(Shift(x), Shift(y))
  {
    hide Xor, Half, Low;
    XorHalf(x, y);
    XorLow(x, y);
    XorMoves(Half(x), Half(y), POLY);
  }

  lemma Shift4Linear(x: bv32, y: bv32)
    ensures Shift4(Xor(x, y)) == Xor(Shift4(x), Shift4(y))
  {
    hide Shift, Xor;
    Linear(x, y);
    Linear(Shift(x), Shift(y));
    Linear(Shift(Shift(x)), Shift(Shift(y)));
    Linear(Shift(Shift(Shift(x))), Shift(Shift(Shift(y))));
  }

  lemma TableEntry(n: bv32)
    requires n < 16
    ensures RTABLE[n as int] == Shift4(n)
  {
  }

  lemma LowClear(x: bv32)
    ensures x & 15 == 0 ==> !Low(x) && Half(x) & 7 == 0
    ensures x & 7 == 0 ==> !Low(x) && Half(x) & 3 == 0
    ensures x & 3 == 0 ==> !Low(x) && Half(x) & 1 == 0
    ensures x & 1 == 0 ==> !Low(x)
  {
  }

  lemma Halves(x: bv32)
    ensures Half(Half(Half(Half(x)))) == x >> 4
  {
  }

  /** No bit of the polynomial comes in while the lowest bits are clear. */
  lemma Four(x: bv32)
    requires x & 15 == 0
    ensures Shift4(x) == x >> 4
  {
    Halves(x);
    LowClear(x);
    LowClear(Half(x));
    LowClear(Half(Half(x)));
    LowClear(Half(Half(Half(x))));
    hide Half, Low, Xor;
  }

  function Nib(x: bv32): (n: bv32)
    ensures n < 16
  {
    x & 15
  }

  lemma LowNibble(x: bv32)
    ensures var y := Xor(x, Nib(x)); Xor(y, Nib(x)) == x && y & 15 == 0 && y >> 4 == x >> 4
  {
  }

  /** One step of the table does four shifts. */
  lemma Nibble(x: bv32)
    ensures Xor(x >> 4, RTABLE[Nib(x) as int]) == Shift4(x)
  {
    hide Shift4, Xor, Nib;
    LowNibble(x);
    Four(Xor(x, Nib(x)));
    Shift4Linear(Xor(x, Nib(x)), Nib(x));
    TableEntry(Nib(x));
  }

  // ----- a few bits at once -----

  function Shifts(c: bv32, n: nat): bv32
    decreases n
  {
    if n == 0 then c else Shifts(Shift(c), n - 1)
  }

  function Double(x: bv32): bv32 {
    x << 1
  }

  function One(bit: bool): bv32 {
    if bit then 1 else 0
  }

  /** Up to 32 bits as a word, the lowest first. */
  function Word(bits: seq<bool>): bv32 {
    if bits == [] then 0 else Xor(Double(Word(bits[1..])), One(bits[0]))
  }

  function And(x: bv32, y: bv32): bv32 {
    x & y
  }

  /** All bits but the lowest `n`. */
  function Above(n: nat): bv32 {
    if n == 0 then 0xffff_ffff else Double(Above(n - 1))
  }

  lemma AndDouble(x: bv32, k: bv32, b: bool)
    ensures And(Xor(Double(x), One(b)), Double(k)) == And(Double(x), Double(k)) == Double(And(x, k))
  {
    hide And, Xor, Double, One;
    AndDoubleOne(x, k);
    OneIs(b);
    XorZero(Double(x));
  }

  lemma AndDoubleOne(x: bv32, k: bv32)
    ensures And(Double(x), Double(k)) == And(Xor(Double(x), 1), Double(k)) == Double(And(x, k))
  {
  }

  lemma AndFacts(x: bv32, y: bv32, z: bv32)
    ensures And(0, x) == 0 == Double(0) && And(x, 0xffff_ffff) == x && And(x, And(y, z)) == And(And(x, z), y)
  {
  }

  /** Bits make a word of that many bits. */
  lemma {:induction false} WordBits(bits: seq<bool>)
    ensures And(Word(bits), Above(|bits|)) == 0
  {
    hide And, Xor, Double, One;
    AndFacts(Above(|bits|), 0, 0);
    if bits != [] {
      WordBits(bits[1..]);
      AndDouble(Word(bits[1..]), Above(|bits| - 1), bits[0]);
    }
  }

  lemma {:induction false} AboveShrinks(m: nat, n: nat)
    requires m <= n
    ensures And(Above(n), Above(m)) == Above(n)
  {
    hide And, Xor, Double, One;
    if m == 0 {
      AndFacts(Above(n), 0, 0);
    } else {
      AboveShrinks(m - 1, n - 1);
      AndDouble(Above(n - 1), Above(m - 1), false);
    }
  }

  lemma Above31()
    ensures Above(31) == 0x8000_0000
  {
    assert Above(4) == 0xffff_fff0;
    assert Above(8) == 0xffff_ff00;
    assert Above(12) == 0xffff_f000;
    assert Above(16) == 0xffff_0000;
    assert Above(20) == 0xfff0_0000;
    assert Above(24) == 0xff00_0000;
    assert Above(28) == 0xf000_0000;
  }

  /** Fewer than 32 bits leave the top of the word clear. */
  lemma TopClear(bits: seq<bool>)
    requires |bits| < 32
    ensures And(Word(bits), 0x8000_0000) == 0
  {
    hide And, Above, Word;
    WordBits(bits);
    AboveShrinks(|bits|, 31);
    Above31();
    AndFacts(Word(bits), Above(31), Above(|bits|));
    AndFacts(Above(31), 0, 0);
  }

  lemma ShiftDouble(x: bv32)
    requires And(x, 0x8000_0000) == 0
    ensures Shift(Double(x)) == x
  {
  }

  /** Bits that enter one by one might as well all enter at the beginning. */
  lemma {:induction false} SerialWord(c: bv32, bits: seq<bool>)
    requires |bits| <= 32
    ensures Serial(c, bits) == Shifts(Xor(c, Word(bits)), |bits|)
    decreases |bits|
  {
    hide And, Xor, Double, One, Shift;
    if bits == [] {
      XorZero(c);
    } else {
      var w, b := Word(bits[1..]), One(bits[0]);
      SerialWord(Feed(c, bits[0]), bits[1..]);
      OneIs(bits[0]);
      TopClear(bits[1..]);
      ShiftDouble(w);
      Linear(Xor(c, b), Double(w));
      XorSwap(c, b, Double(w));
    }
  }

  lemma XorZero(c: bv32)
    ensures Xor(c, 0) == c && Xor(c, c) == 0
  {
  }

  lemma OneIs(b: bool)
    ensures One(b) == if b then 1 else 0
  {
  }

  lemma XorSwap(c: bv32, b: bv32, d: bv32)
    ensures Xor(Xor(c, b), d) == Xor(c, Xor(d, b))
  {
  }

  // ----- the table is the definition -----

  lemma {:induction false} SerialCat(c: bv32, p: seq<bool>, q: seq<bool>)
    ensures Serial(c, p + q) == Serial(Serial(c, p), q)
    decreases |p|
  {
    hide Feed;
    if p == [] {
      assert p + q == q;
    } else {
      assert (p + q)[1..] == p[1..] + q;
      SerialCat(Feed(c, p[0]), p[1..], q);
    }
  }

  /** A word built from its highest bit down. */
  function Built(s: seq<bool>, k: nat): bv32
    requires k <= |s|
    decreases |s| - k
  {
    if k == |s| then 0 else Xor(Double(Built(s, k + 1)), One(s[k]))
  }

  lemma {:induction false} WordFrom(s: seq<bool>, k: nat)
    requires k <= |s|
    ensures Word(s[k..]) == Built(s, k)
    decreases |s| - k
  {
    hide Xor, Double, One;
    if k < |s| {
      assert s[k..][1..] == s[k + 1..];
      WordFrom(s, k + 1);
    }
  }

  function LowHalf(d: bv8): bv32 {
    (d & 15) as bv32
  }

  function HighHalf(d: bv8): bv32 {
    (d >> 4) as bv32
  }

  lemma NibbleWords(d: bv8)
    ensures var s := ByteBits(d); Word(s[..4]) == LowHalf(d) && Word(s[4..]) == HighHalf(d)
  {
    var s := ByteBits(d);
    WordFrom(s, 4);
    assert Built(s, 7) == (d >> 7) as bv32;
    assert Built(s, 6) == (d >> 6) as bv32;
    assert Built(s, 5) == (d >> 5) as bv32;
    LowWord(d);
  }

  lemma LowWord(d: bv8)
    ensures Word(ByteBits(d)[..4]) == LowHalf(d)
  {
    var s := ByteBits(d)[..4];
    assert s[0..] == s;
    WordFrom(s, 0);
    assert Built(s, 3) == ((d & 15) >> 3) as bv32;
    assert Built(s, 2) == ((d & 15) >> 2) as bv32;
    assert Built(s, 1) == ((d & 15) >> 1) as bv32;
  }

  /** Half a turn of the loop of `lfs_crc` */
  function HalfStep(c: bv32, d: bv32): bv32 {
    (c >> 4) ^ RTABLE[((c ^ d) & 15) as int]
  }

  /** One turn: the two halves of a byte through the table. */
  function TableStep(c: bv32, d: bv8): bv32 {
    HalfStep(HalfStep(c, d as bv32), HighHalf(d))
  }

  lemma Mixed(c: bv32, d: bv32)
    ensures var x := Xor(c, Nib(d)); x >> 4 == c >> 4 && Nib(x) == (c ^ d) & 15
  {
  }

  lemma LowHigh(d: bv8)
    ensures LowHalf(d) == Nib(d as bv32) && HighHalf(d) == Nib(HighHalf(d))
  {
  }

  lemma Shifts4(x: bv32)
    ensures Shifts(x, 4) == Shift4(x)
  {
    hide Shift;
  }

  lemma HalfShifts(c: bv32, d: bv32)
    ensures HalfStep(c, d) == Shift4(Xor(c, Nib(d)))
  {
    Mixed(c, d);
    Nibble(Xor(c, Nib(d)));
    hide Shift4, Nib;
  }

  lemma FourBits(c: bv32, s: seq<bool>)
    requires |s| == 4
    ensures Serial(c, s) == Shift4(Xor(c, Word(s)))
  {
    hide *;
    SerialWord(c, s);
    Shifts4(Xor(c, Word(s)));
  }

  /** A step of the table feeds the eight bits of the byte into the register. */
  lemma StepIsSerial(c: bv32, d: bv8)
    ensures TableStep(c, d) == Serial(c, ByteBits(d))
  {
    hide Shift4, Xor, Nib, HalfStep, LowHalf, HighHalf, ByteBits, Word, Serial;
    var s := ByteBits(d);
    assert s == s[..4] + s[4..];
    SerialCat(c, s[..4], s[4..]);
    NibbleWords(d);
    LowHigh(d);
    FourBits(c, s[..4]);
    HalfShifts(c, d as bv32);
    var e := Serial(c, s[..4]);
    FourBits(e, s[4..]);
    HalfShifts(e, HighHalf(d));
  }

  lemma MessageFrom(data: seq<bv8>, i: nat)
    requires i < |data|
    ensures Message(data[i..]) == ByteBits(data[i]) + Message(data[i + 1..])
  {
    assert data[i..][1..] == data[i + 1..];
  }

  /** `lfs_crc` */
  method LfsCrc(start: bv32, buffer: array<bv8>, size: nat) returns (crc: bv32)
    requires size <= buffer.Length
    ensures crc == Serial(start, Message(buffer[..size]))
  {
    hide Serial, Message, ByteBits, HalfStep;
    ghost var data := buffer[..size];
    assert data[0..] == data;
    crc := start;
    for i := 0 to size
      invariant Serial(crc, Message(data[i..])) == Serial(start, Message(data))
    {
      MessageFrom(data, i);
      SerialCat(crc, ByteBits(data[i]), Message(data[i + 1..]));
      StepIsSerial(crc, data[i]);
      crc := HalfStep(crc, buffer[i] as bv32);
      crc := HalfStep(crc, HighHalf(buffer[i]));
    }
    NoMessage(crc);
  }

  lemma NoMessage(c: bv32)
    ensures Serial(c, Message([])) == c
  {
  }

  // ----- errors that are detected -----

  lemma ShiftInjective(x: bv32, y: bv32)
    requires Shift(x) == Shift(y)
    ensures x == y
  {
    Linear(x, y);
    XorZero(Shift(x));
    ShiftZero(Xor(x, y));
  }

  lemma ShiftZero(z: bv32)
    requires Shift(z) == 0
    ensures z == 0
  {
  }

  lemma {:induction false} ShiftsInjective(x: bv32, y: bv32, n: nat)
    requires Shifts(x, n) == Shifts(y, n)
    ensures x == y
    decreases n
  {
    hide Shift;
    if n > 0 {
      ShiftsInjective(Shift(x), Shift(y), n - 1);
      ShiftInjective(x, y);
    }
  }

  lemma XorCancel(c: bv32, x: bv32, y: bv32)
    ensures (Xor(c, x) == Xor(c, y)) <==> x == y
    ensures (Xor(x, c) == Xor(y, c)) <==> x == y
  {
  }

  /** Registers that differ go on differing over the same bits. */
  lemma {:induction false} SerialInjective(c: bv32, d: bv32, s: seq<bool>)
    requires Serial(c, s) == Serial(d, s)
    ensures c == d
    decreases |s|
  {
    hide Shift, Xor, One;
    if s != [] {
      SerialInjective(Feed(c, s[0]), Feed(d, s[0]), s[1..]);
      ShiftInjective(Xor(c, if s[0] then 1 else 0), Xor(d, if s[0] then 1 else 0));
      XorCancel(if s[0] then 1 else 0, c, d);
    }
  }

  lemma DoubleInjective(x: bv32, y: bv32, a: bool, b: bool)
    requires And(x, 0x8000_0000) == 0 && And(y, 0x8000_0000) == 0
    requires Xor(Double(x), One(a)) == Xor(Double(y), One(b))
    ensures x == y && a == b
  {
  }

  lemma {:induction false} WordInjective(u: seq<bool>, v: seq<bool>)
    requires |u| == |v| <= 32 && Word(u) == Word(v)
    ensures u == v
  {
    hide Xor, Double, One, And;
    if u != [] {
      TopClear(u[1..]);
      TopClear(v[1..]);
      DoubleInjective(Word(u[1..]), Word(v[1..]), u[0], v[0]);
      WordInjective(u[1..], v[1..]);
      assert u == [u[0]] + u[1..] && v == [v[0]] + v[1..];
    }
  }

  /** Whatever stands before and behind, an error within 32 bits changes the checksum. */
  lemma BurstDetected(c: bv32, p: seq<bool>, u: seq<bool>, v: seq<bool>, s: seq<bool>)
    requires |u| == |v| <= 32 && u != v
    ensures Serial(c, p + u + s) != Serial(c, p + v + s)
  {
    hide Serial, Shifts, Xor, Word;
    var d := Serial(c, p);
    SerialCat(c, p, u);
    SerialCat(c, p, v);
    SerialCat(c, p + u, s);
    SerialCat(c, p + v, s);
    if Serial(c, p + u + s) == Serial(c, p + v + s) {
      SerialInjective(Serial(d, u), Serial(d, v), s);
      SerialWord(d, u);
      SerialWord(d, v);
      ShiftsInjective(Xor(d, Word(u)), Xor(d, Word(v)), |u|);
      XorCancel(d, Word(u), Word(v));
      WordInjective(u, v);
    }
  }

  // ----- bytes -----

  lemma {:induction false} MessageAt(data: seq<bv8>, i: nat)
    requires i < |data|
    ensures Message(data)[8 * i..8 * i + 8] == ByteBits(data[i])
  {
    hide ByteBits;
    var first, rest := ByteBits(data[0]), Message(data[1..]);
    if i > 0 {
      MessageAt(data[1..], i - 1);
      assert (first + rest)[8 * i..8 * i + 8] == rest[8 * (i - 1)..8 * (i - 1) + 8];
    }
  }

  lemma ByteInjective(x: bv8, y: bv8)
    requires ByteBits(x) == ByteBits(y)
    ensures x == y
  {
  }

  lemma MessageInjective(a: seq<bv8>, b: seq<bv8>)
    requires |a| == |b| && Message(a) == Message(b)
    ensures a == b
  {
    hide Message, ByteBits;
    forall i | 0 <= i < |a|
      ensures a[i] == b[i]
    {
      MessageAt(a, i);
      MessageAt(b, i);
      ByteInjective(a[i], b[i]);
    }
  }

  /** Buffers whose bits differ nowhere but within 32 consecutive ones have different checksums. */
  lemma ChecksumDiffers(c: bv32, a: seq<bv8>, b: seq<bv8>, k: nat, n: nat)
    requires |a| == |b| && a != b && n <= 32 && k + n <= 8 * |a|
    requires Message(a)[..k] == Message(b)[..k] && Message(a)[k + n..] == Message(b)[k + n..]
    ensures Serial(c, Message(a)) != Serial(c, Message(b))
  {
    hide Serial, Message;
    var m, w := Message(a), Message(b);
    assert m == m[..k] + m[k..k + n] + m[k + n..] && w == w[..k] + w[k..k + n] + w[k + n..];
    if m[k..k + n] == w[k..k + n] {
      MessageInjective(a, b);
    } else {
      BurstDetected(c, m[..k], m[k..k + n], w[k..k + n], m[k + n..]);
    }
  }

  lemma {:induction false} MessageCat(p: seq<bv8>, q: seq<bv8>)
    ensures Message(p + q) == Message(p) + Message(q)
  {
    hide ByteBits;
    if p == [] {
      assert p + q == q;
    } else {
      assert (p + q)[1..] == p[1..] + q;
      MessageCat(p[1..], q);
    }
  }

  /** One byte changed changes the checksum. */
  lemma ByteDetected(c: bv32, a: seq<bv8>, i: nat, x: bv8)
    requires i < |a| && x != a[i]
    ensures Serial(c, Message(a)) != Serial(c, Message(a[i := x]))
  {
    hide Serial, Message, ByteBits;
    var b := a[i := x];
    var p, s := a[..i], a[i + 1..];
    assert a == p + [a[i]] + s && b == p + [x] + s;
    MessageCat(p + [a[i]], s);
    MessageCat(p, [a[i]]);
    MessageCat(p + [x], s);
    MessageCat(p, [x]);
    ThreeParts(Message(p), Message([a[i]]), Message(s));
    ThreeParts(Message(p), Message([x]), Message(s));
    ChecksumDiffers(c, a, b, |Message(p)|, 8);
  }

  lemma ThreeParts(p: seq<bool>, u: seq<bool>, s: seq<bool>)
    ensures var all := p + u + s; all[..|p|] == p && all[|p| + |u|..] == s
  {
  }

  // ----- how wide an error may be -----

  /** The bits of two buffers differ nowhere but in the `w` from `k` on. */
  ghost predicate Near(a: seq<bv8>, b: seq<bv8>, k: nat, w: nat) {
    |a| == |b| && forall i :: 0 <= i < 8 * |a| && !(k <= i < k + w) ==> Message(a)[i] == Message(b)[i]
  }

  predicate Differ(c: bv32, a: seq<bv8>, b: seq<bv8>) {
    Serial(c, Message(a)) != Serial(c, Message(b))
  }

  /** All errors within `w` bits are detected. */
  ghost predicate AllDetected(w: nat) {
    forall c, a, b, k | a != b && Near(a, b, k, w) :: Differ(c, a, b)
  }

  lemma NearDiffer(c: bv32, a: seq<bv8>, b: seq<bv8>, k: nat, w: nat)
    requires a != b && Near(a, b, k, w) && w <= 32
    ensures Differ(c, a, b)
  {
    hide Serial, Message;
    var all := 8 * |a|;
    var from := if k < all then k else all;
    var n := if from + w <= all then w else all - from;
    var m, v := Message(a), Message(b);
    assert m[..from] == v[..from] && m[from + n..] == v[from + n..];
    ChecksumDiffers(c, a, b, from, n);
  }

  const ONES: seq<bv8> := [0x41, 0x06, 0x71, 0xdb, 0x01]
  const NONE: seq<bv8> := [0x00, 0x00, 0x00, 0x00, 0x00]

  lemma TwoSteps(c: bv32, data: seq<bv8>, i: nat)
    requires i < |data|
    ensures Serial(c, Message(data[i..])) == Serial(TableStep(c, data[i]), Message(data[i + 1..]))
  {
    hide Serial, Message, ByteBits, TableStep;
    MessageFrom(data, i);
    SerialCat(c, ByteBits(data[i]), Message(data[i + 1..]));
    StepIsSerial(c, data[i]);
  }

  lemma FiveSteps(data: seq<bv8>, c1: bv32, c2: bv32, c3: bv32, c4: bv32)
    requires |data| == 5 && c1 == TableStep(0, data[0]) && c2 == TableStep(c1, data[1]) && c3 == TableStep(c2, data[2])
    requires c4 == TableStep(c3, data[3]) && TableStep(c4, data[4]) == 0
    ensures Serial(0, Message(data)) == 0
  {
    hide Serial, Message, TableStep;
    assert data[0..] == data && data[5..] == [];
    TwoSteps(0, data, 0);
    TwoSteps(c1, data, 1);
    TwoSteps(c2, data, 2);
    TwoSteps(c3, data, 3);
    TwoSteps(c4, data, 4);
    NoMessage(0);
  }

  /** The polynomial with its first bit, 33 bits in all, goes unnoticed. */
  lemma Unnoticed()
    ensures !Differ(0, ONES, NONE)
  {
    hide Serial, Message;
    FiveSteps(ONES, 0x1db7106, 0x1db71, 0x1db, 0x1);
    FiveSteps(NONE, 0, 0, 0, 0);
  }

  lemma UnnoticedNear()
    ensures Near(ONES, NONE, 0, 33)
  {
    hide Message, ByteBits;
    MessageAt(ONES, 4);
    MessageAt(NONE, 4);
    LastBits();
    forall i | 33 <= i < 40
      ensures Message(ONES)[i] == Message(NONE)[i]
    {
      assert Message(ONES)[i] == Message(ONES)[32..40][i - 32];
      assert Message(NONE)[i] == Message(NONE)[32..40][i - 32];
    }
  }

  lemma LastBits()
    ensures forall i :: 1 <= i < 8 ==> ByteBits(0x01)[i] == ByteBits(0x00)[i]
  {
  }

  /** 32 bits are the most within which every error in a buffer is detected. */
  lemma DetectionExact(w: nat)
    ensures AllDetected(w) <==> w <= 32
  {
    hide Near, Differ;
    if w <= 32 {
      forall c, a, b, k | a != b && Near(a, b, k, w)
        ensures Differ(c, a, b)
      {
        NearDiffer(c, a, b, k, w);
      }
    } else {
      Unnoticed();
      UnnoticedNear();
      Wider(ONES, NONE, 0, 33, w);
      assert ONES[0] != NONE[0];
    }
  }

  lemma Wider(a: seq<bv8>, b: seq<bv8>, k: nat, v: nat, w: nat)
    requires Near(a, b, k, v) && v <= w
    ensures Near(a, b, k, w)
  {
  }
}
