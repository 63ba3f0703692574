/** Shift registers over an arbitrary state type. */
module Registers {
  import opened Crc

  function Fold<T>(step: (T, bool) -> T, c: T, bits: seq<bool>): T
    decreases |bits|
  {
    if bits == [] then c else Fold(step, step(c, bits[0]), bits[1..])
  }

  function FlatMap<A, B>(f: A -> seq<B>, s: seq<A>): seq<B>
    decreases |s|
  {
    if s == [] then [] else f(s[0]) + FlatMap(f, s[1..])
  }

  lemma {:induction false} FlatMapLength<A(!new), B>(f: A -> seq<B>, s: seq<A>)
    requires forall x :: |f(x)| == 8
    ensures |FlatMap(f, s)| == 8 * |s|
  {
    if s != [] { FlatMapLength(f, s[1..]); }
  }

  lemma {:induction false} FlatMapAt<A(!new), B>(f: A -> seq<B>, s: seq<A>, i: nat)
    requires (forall x :: |f(x)| == 8) && i < |s|
    ensures |FlatMap(f, s)| == 8 * |s| && FlatMap(f, s)[8 * i..8 * i + 8] == f(s[i])
    decreases |s|
  {
    FlatMapLength(f, s);
    FlatMapLength(f, s[1..]);
    var head, tail := f(s[0]), FlatMap(f, s[1..]);
    if i > 0 {
      FlatMapAt(f, s[1..], i - 1);
      Slice(head, tail, 8 * i, 8);
    }
  }

  lemma Slice<T>(head: seq<T>, tail: seq<T>, i: nat, n: nat)
    requires |head| <= i && i + n <= |head| + |tail|
    ensures (head + tail)[i..i + n] == tail[i - |head|..i - |head| + n]
  {
  }

  // The low n bits of w, lowest first.
  function WordBits<T>(low: T -> bool, half: T -> T, w: T, n: nat): (r: seq<bool>)
    ensures |r| == n
    decreases n
  {
    if n == 0 then [] else [low(w)] + WordBits(low, half, half(w), n - 1)
  }

  // Feeding the bits of w one by one is adding w at once and shifting, when w has no more than n bits.
  lemma {:induction false} FoldIsIterate<T(!new)>(f: T -> T, add: (T, T) -> T, zero: T, low: T -> bool, half: T -> T,
                                           step: (T, bool) -> T, c: T, w: T, n: nat)
    requires forall x, y :: f(add(x, y)) == add(step(x, low(y)), half(y))
    requires forall x :: add(x, zero) == x
    requires Iterate(half, w, n) == zero
    ensures Iterate(f, add(c, w), n) == Fold(step, c, WordBits(low, half, w, n))
    decreases n
  {
    if n > 0 {
      FoldIsIterate(f, add, zero, low, half, step, step(c, low(w)), half(w), n - 1);
      assert f(add(c, w)) == add(step(c, low(w)), half(w));
      assert WordBits(low, half, w, n)[1..] == WordBits(low, half, half(w), n - 1);
    }
  }

  ghost predicate Determined<T(!new)>(low: T -> bool, half: T -> T) {
    forall x, y :: low(x) == low(y) && half(x) == half(y) ==> x == y
  }

  // Words that vanish after n halvings are determined by n bits.
  lemma {:induction false} WordBitsInjective<T(!new)>(low: T -> bool, half: T -> T, x: T, y: T, n: nat)
    requires Determined(low, half) && Iterate(half, x, n) == Iterate(half, y, n)
    requires WordBits(low, half, x, n) == WordBits(low, half, y, n)
    ensures x == y
    decreases n
  {
    if n > 0 {
      var p, q := WordBits(low, half, x, n), WordBits(low, half, y, n);
      assert p[0] == low(x) && q[0] == low(y);
      assert p[1..] == WordBits(low, half, half(x), n - 1) && q[1..] == WordBits(low, half, half(y), n - 1);
      WordBitsInjective(low, half, half(x), half(y), n - 1);
    }
  }

  lemma {:induction false} FoldSplit<T>(step: (T, bool) -> T, c: T, a: seq<bool>, b: seq<bool>)
    ensures Fold(step, c, a + b) == Fold(step, Fold(step, c, a), b)
    decreases |a|
  {
    if a == [] {
      assert a + b == b;
    } else {
      assert (a + b)[0] == a[0] && (a + b)[1..] == a[1..] + b;
      FoldSplit(step, step(c, a[0]), a[1..], b);
    }
  }

  lemma {:induction false} IterateSum<T>(f: T -> T, c: T, m: nat, n: nat)
    ensures Iterate(f, c, m + n) == Iterate(f, Iterate(f, c, m), n)
    decreases m
  {
    if m > 0 { IterateSum(f, f(c), m - 1, n); }
  }

  ghost predicate Reversible<T(!new)>(step: (T, bool) -> T, b: bool) {
    forall x, y :: step(x, b) == step(y, b) ==> x == y
  }

  // Different states stay different under equal input.
  lemma {:induction false} FoldInjective<T(!new)>(step: (T, bool) -> T, c: T, d: T, bits: seq<bool>)
    requires (forall b :: Reversible(step, b)) && c != d
    ensures Fold(step, c, bits) != Fold(step, d, bits)
    decreases |bits|
  {
    if bits != [] {
      var b := bits[0];
      assert Reversible(step, b);
      FoldInjective(step, step(c, bits[0]), step(d, bits[0]), bits[1..]);
    }
  }

  ghost predicate Halves<T(!new)>(step: (T, bool) -> T, apart: (T, T, T) -> bool, half: T -> T, p: bool, q: bool) {
    forall x, y, k :: apart(x, y, k) ==> apart(step(x, p), step(y, q), half(k))
  }

  ghost predicate Shuffles<T(!new)>(add: (T, T) -> T) {
    forall a, b, c, d :: add(add(a, b), add(c, d)) == add(add(a, c), add(b, d))
  }

  lemma AssociativeShuffles<T(!new)>(add: (T, T) -> T)
    requires (forall a, b, c :: add(add(a, b), c) == add(a, add(b, c))) && forall a, b :: add(a, b) == add(b, a)
    ensures Shuffles(add)
  {
    forall a, b, c, d ensures add(add(a, b), add(c, d)) == add(add(a, c), add(b, d)) {
      assert add(add(a, b), add(c, d)) == add(a, add(b, add(c, d)));
      assert add(b, add(c, d)) == add(add(b, c), d) == add(add(c, b), d) == add(c, add(b, d));
      assert add(a, add(c, add(b, d))) == add(add(a, c), add(b, d));
    }
  }

  ghost predicate AddsBits<T>(add: (T, T) -> T, bit: bool -> T) {
    forall p, q :: add(bit(p), bit(q)) == bit(p != q)
  }

  ghost predicate KeepsDistance<T(!new)>(f: T -> T, add: (T, T) -> T, bit: bool -> T, geq: (T, T) -> bool, half: T -> T) {
    forall e, k, b :: geq(e, k) ==> geq(f(add(e, bit(b))), half(k))
  }

  // For a linear register, the distance of two runs moves on its own.
  lemma LinearHalves<T(!new)>(f: T -> T, add: (T, T) -> T, bit: bool -> T, geq: (T, T) -> bool, half: T -> T,
                       step: (T, bool) -> T, apart: (T, T, T) -> bool)
    requires Linear(f, add) && Shuffles(add) && AddsBits(add, bit) && KeepsDistance(f, add, bit, geq, half)
    requires forall x, b :: step(x, b) == f(add(x, bit(b)))
    requires forall x, y, k :: apart(x, y, k) <==> geq(add(x, y), k)
    ensures forall p, q :: Halves(step, apart, half, p, q)
  {
    forall p, q, x, y, k | apart(x, y, k) ensures apart(step(x, p), step(y, q), half(k)) {
      var b := p != q;
      assert step(x, p) == f(add(x, bit(p))) && step(y, q) == f(add(y, bit(q)));
      assert add(step(x, p), step(y, q)) == f(add(add(x, bit(p)), add(y, bit(q))));
      assert add(add(x, bit(p)), add(y, bit(q))) == add(add(x, y), add(bit(p), bit(q)));
      assert add(bit(p), bit(q)) == bit(b);
      assert geq(f(add(add(x, y), bit(b))), half(k));
    }
  }

  // A bound on the distance of two runs that at worst halves with every bit.
  lemma {:induction false} FoldApart<T(!new)>(step: (T, bool) -> T, apart: (T, T, T) -> bool, half: T -> T, c: T, d: T,
                                       h: T, u: seq<bool>, v: seq<bool>)
    requires forall p, q :: Halves(step, apart, half, p, q)
    requires |u| == |v| && apart(c, d, h)
    ensures apart(Fold(step, c, u), Fold(step, d, v), Iterate(half, h, |u|))
    decreases |u|
  {
    if u != [] {
      var p, q := u[0], v[0];
      assert Halves(step, apart, half, p, q);
      FoldApart(step, apart, half, step(c, u[0]), step(d, v[0]), half(h), u[1..], v[1..]);
    }
  }
}

/** Error detection: any two messages that differ only inside a burst of 32 bits have different
    check values. */
module CrcBurst {
  import opened Crc
  import opened Registers

  function BitOf(b: bool): bv32 { if b then 1 else 0 }

  function FeedBit(c: bv32, b: bool): bv32 { Shift(Xor(c, BitOf(b))) }

  predicate Low(w: bv32) { w & 1 == 1 }

  function Half(w: bv32): bv32 { w >> 1 }

  // The register fed one bit at a time.
  function Feed(c: bv32, bits: seq<bool>): bv32 { Fold(FeedBit, c, bits) }

  function ByteBits(b: bv32): (r: seq<bool>)
    ensures |r| == 8
  {
    WordBits(Low, Half, b, 8)
  }

  function BitsOf(b: bv8): (r: seq<bool>)
    ensures |r| == 8
  {
    ByteBits(b as bv32)
  }

  // The bits of a message, lowest bit of each byte first.
  function MessageBits(buffer: Bytes): (r: seq<bool>)
    ensures |r| == 8 * |buffer|
  {
    FlatMapLength(BitsOf, buffer);
    FlatMap(BitsOf, buffer)
  }

  // ----- bytes and bits feed the register alike -----

  lemma EvenShift(b: bv32)
    requires b & 1 == 0
    ensures Shift(b) == b >> 1
  {
  }

  lemma OddSplit(c: bv32, b: bv32)
    requires b & 1 == 1
    ensures c ^ b == (c ^ 1) ^ (b & 0xfffffffe)
  {
  }

  lemma EvenSplit(c: bv32, b: bv32)
    requires b & 1 != 1
    ensures c ^ b == (c ^ 0) ^ (b & 0xfffffffe)
  {
  }

  lemma EvenMask(b: bv32)
    ensures (b & 0xfffffffe) & 1 == 0 && (b & 0xfffffffe) >> 1 == b >> 1
  {
  }

  lemma LowBitSplit(c: bv32, b: bv32, k: bv32)
    requires k == if b & 1 == 1 then 1 else 0
    ensures c ^ b == (c ^ k) ^ (b & 0xfffffffe)
  {
    if b & 1 == 1 { OddSplit(c, b); } else { EvenSplit(c, b); }
  }

  lemma BitSplit(c: bv32, b: bv32)
    ensures Xor(c, b) == Xor(Xor(c, BitOf(Low(b))), b & 0xfffffffe)
  {
    LowBitSplit(c, b, BitOf(Low(b)));
  }

  lemma LinearSplit<T(!new)>(f: T -> T, add: (T, T) -> T, x: T, p: T, q: T, image: T)
    requires Linear(f, add) && x == add(p, q) && f(q) == image
    ensures f(x) == add(f(p), image)
  {
  }

  lemma FeedLowBit(c: bv32, b: bv32)
    ensures Shift(Xor(c, b)) == Xor(FeedBit(c, Low(b)), Half(b))
  {
    RegisterLinear();
    BitSplit(c, b);
    EvenMask(b);
    EvenShift(b & 0xfffffffe);
    LinearSplit(Shift, Xor, Xor(c, b), Xor(c, BitOf(Low(b))), b & 0xfffffffe, b >> 1);
  }

  lemma XorZero(c: bv32)
    ensures Xor(c, 0) == c
  {
  }

  lemma ByteVanishes(b: bv32)
    requires b <= 0xff
    ensures Iterate(Half, b, 8) == 0
  {
  }

  lemma ByteFeeds(c: bv32, b: bv32)
    requires b <= 0xff
    ensures Shifts(Xor(c, b), 8) == Feed(c, ByteBits(b))
  {
    forall x, y ensures Shift(Xor(x, y)) == Xor(FeedBit(x, Low(y)), Half(y)) { FeedLowBit(x, y); }
    forall x ensures Xor(x, 0) == x { XorZero(x); }
    ByteVanishes(b);
    FoldIsIterate(Shift, Xor, 0, Low, Half, FeedBit, c, b, 8);
  }

  lemma RegisterUnroll(c: bv32, buffer: Bytes, d: bv32)
    requires buffer != [] && d == Shifts(Xor(c, buffer[0] as bv32), 8)
    ensures Register(c, buffer) == Register(d, buffer[1..])
  {
  }

  // The byte-wise register is the bit-wise one.
  lemma {:induction false} RegisterFeeds(c: bv32, buffer: Bytes)
    ensures Register(c, buffer) == Feed(c, MessageBits(buffer))
    decreases |buffer|
  {
    if buffer != [] {
      var b := buffer[0] as bv32;
      Widened(buffer[0]);
      ByteFeeds(c, b);
      RegisterUnroll(c, buffer, Feed(c, ByteBits(b)));
      RegisterFeeds(Feed(c, ByteBits(b)), buffer[1..]);
      FoldSplit(FeedBit, c, BitsOf(buffer[0]), MessageBits(buffer[1..]));
    }
  }

  // ----- bursts -----

  predicate Apart(x: bv32, y: bv32, h: bv32) { Geq(Xor(x, y), h) }

  predicate Geq(e: bv32, h: bv32) { e >= h }

  lemma OddKeepsDistance(e: bv32, h: bv32, b: bool)
    requires e & 1 == 1 && Geq(e, h)
    ensures Geq(Shift(Xor(e, BitOf(b))), Half(h))
  {
  }

  lemma EvenKeepsDistance(e: bv32, h: bv32, b: bool)
    requires e & 1 != 1 && Geq(e, h)
    ensures Geq(Shift(Xor(e, BitOf(b))), Half(h))
  {
  }

  // A distance of at least h leaves a distance of at least h / 2: either it only shifts, or the
  // polynomial sets the top bit.
  lemma ShiftKeepsDistance(e: bv32, h: bv32, b: bool)
    requires Geq(e, h)
    ensures Geq(Shift(Xor(e, BitOf(b))), Half(h))
  {
    if e & 1 == 1 { OddKeepsDistance(e, h, b); } else { EvenKeepsDistance(e, h, b); }
  }

  lemma XorAssociates(a: bv32, b: bv32, c: bv32)
    ensures Xor(Xor(a, b), c) == Xor(a, Xor(b, c))
  {
  }

  lemma XorShuffles()
    ensures Shuffles(Xor)
  {
    forall a, b, c ensures Xor(Xor(a, b), c) == Xor(a, Xor(b, c)) { XorAssociates(a, b, c); }
    forall a, b ensures Xor(a, b) == Xor(b, a) { }
    AssociativeShuffles(Xor);
  }

  lemma RegisterKeepsDistance()
    ensures KeepsDistance(Shift, Xor, BitOf, Geq, Half)
  {
    forall e, h, b | Geq(e, h) ensures Geq(Shift(Xor(e, BitOf(b))), Half(h)) { ShiftKeepsDistance(e, h, b); }
  }

  lemma XorAddsBits()
    ensures AddsBits(Xor, BitOf)
  {
  }

  lemma FeedHalves()
    ensures forall p, q :: Halves(FeedBit, Apart, Half, p, q)
  {
    RegisterLinear();
    XorShuffles();
    XorAddsBits();
    RegisterKeepsDistance();
    LinearHalves(Shift, Xor, BitOf, Geq, Half, FeedBit, Apart);
  }

  lemma XorInjective(x: bv32, y: bv32, k: bv32)
    requires Xor(x, k) == Xor(y, k)
    ensures x == y
  {
  }

  lemma FeedReversible(b: bool)
    ensures Reversible(FeedBit, b)
  {
    forall x, y | FeedBit(x, b) == FeedBit(y, b) ensures x == y {
      ShiftInjective(Xor(x, BitOf(b)), Xor(y, BitOf(b)));
      XorInjective(x, y, BitOf(b));
    }
  }

  // One differing bit leaves the two registers apart by the polynomial.
  lemma FirstDifference(c: bv32, p: bool, q: bool)
    requires p != q
    ensures Apart(FeedBit(c, p), FeedBit(c, q), 0x80000000)
  {
  }

  lemma EightHalves(c: bv32, d: bv32)
    requires d == c >> 8
    ensures Iterate(Half, c, 8) == d
  {
  }

  lemma SevenHalves()
    ensures Iterate(Half, 0x80, 7) == 1
  {
  }

  lemma {:induction false} DistanceLasts(n: nat)
    requires n <= 31
    ensures Iterate(Half, 0x80000000, n) != 0
    decreases 31 - n
  {
    if n == 31 {
      EightHalves(0x80000000, 0x00800000);
      EightHalves(0x00800000, 0x00008000);
      EightHalves(0x00008000, 0x00000080);
      IterateSum(Half, 0x80000000, 8, 23);
      IterateSum(Half, 0x00800000, 8, 15);
      IterateSum(Half, 0x00008000, 8, 7);
      SevenHalves();
    } else {
      DistanceLasts(n + 1);
      IterateLast(Half, 0x80000000, n);
    }
  }

  lemma ApartDiffer(x: bv32, y: bv32, h: bv32)
    requires Apart(x, y, h) && h != 0
    ensures x != y
  {
  }

  lemma {:induction false} ShortBurst(c: bv32, u: seq<bool>, v: seq<bool>)
    requires |u| == |v| <= 32 && u != v
    ensures Feed(c, u) != Feed(c, v)
    decreases |u|
  {
    var p, q, u', v' := u[0], v[0], u[1..], v[1..];
    assert u == [p] + u' && v == [q] + v';
    if p == q {
      ShortBurst(FeedBit(c, p), u', v');
    } else {
      FeedHalves();
      FirstDifference(c, p, q);
      FoldApart(FeedBit, Apart, Half, FeedBit(c, p), FeedBit(c, q), 0x80000000, u', v');
      DistanceLasts(|u'|);
      ApartDiffer(Feed(FeedBit(c, p), u'), Feed(FeedBit(c, q), v'), Iterate(Half, 0x80000000, |u'|));
    }
  }

  lemma FramedBurst(c: bv32, before: seq<bool>, u: seq<bool>, v: seq<bool>, after: seq<bool>)
    requires |u| == |v| <= 32 && u != v
    ensures Feed(c, before + u + after) != Feed(c, before + v + after)
  {
    FoldSplit(FeedBit, c, before + u, after);
    FoldSplit(FeedBit, c, before, u);
    FoldSplit(FeedBit, c, before + v, after);
    FoldSplit(FeedBit, c, before, v);
    var d := Feed(c, before);
    ShortBurst(d, u, v);
    forall b ensures Reversible(FeedBit, b) { FeedReversible(b); }
    FoldInjective(FeedBit, Feed(d, u), Feed(d, v), after);
  }

  // The two bit strings agree outside the 32 bits from position i on.
  ghost predicate Burst(x: seq<bool>, y: seq<bool>, i: nat) {
    |x| == |y| && x != y && forall j :: 0 <= j < |x| && !(i <= j < i + 32) ==> x[j] == y[j]
  }

  lemma BurstChangesRegister(c: bv32, x: seq<bool>, y: seq<bool>, i: nat)
    requires Burst(x, y, i)
    ensures Feed(c, x) != Feed(c, y)
  {
    var lo := if i <= |x| then i else |x|;
    var hi := if i + 32 <= |x| then i + 32 else |x|;
    assert x[..lo] == y[..lo] && x[hi..] == y[hi..];
    assert x == x[..lo] + x[lo..hi] + x[hi..] && y == y[..lo] + y[lo..hi] + y[hi..];
    FramedBurst(c, x[..lo], x[lo..hi], y[lo..hi], x[hi..]);
  }

  // ----- whole messages -----

  lemma ComplementDiffers(x: bv32, y: bv32)
    requires x != y
    ensures x ^ 0xffffffff != y ^ 0xffffffff
  {
  }

  // Messages that differ only within 32 consecutive bits have different check values.
  lemma BurstDetected(a: Bytes, b: Bytes, i: nat)
    requires Burst(MessageBits(a), MessageBits(b), i)
    ensures CrcOf(a) != CrcOf(b)
  {
    RegisterFeeds(0xffffffff, a);
    RegisterFeeds(0xffffffff, b);
    BurstChangesRegister(0xffffffff, MessageBits(a), MessageBits(b), i);
    ComplementDiffers(Register(0xffffffff, a), Register(0xffffffff, b));
  }

  lemma HalfAndLow(x: bv32, y: bv32)
    requires Low(x) == Low(y) && Half(x) == Half(y)
    ensures x == y
  {
  }

  lemma ByteBitsInjective(a: bv8, b: bv8)
    requires a != b
    ensures BitsOf(a) != BitsOf(b)
  {
    forall x, y | Low(x) == Low(y) && Half(x) == Half(y) ensures x == y { HalfAndLow(x, y); }
    Widened(a);
    Widened(b);
    ByteVanishes(a as bv32);
    ByteVanishes(b as bv32);
    if ByteBits(a as bv32) == ByteBits(b as bv32) {
      WordBitsInjective(Low, Half, a as bv32, b as bv32, 8);
    }
  }

  lemma SameBit(a: Bytes, b: Bytes, j: nat)
    requires |a| == |b| && j < 8 * |a| && a[j / 8] == b[j / 8]
    ensures MessageBits(a)[j] == MessageBits(b)[j]
  {
    var k := j / 8;
    FlatMapAt(BitsOf, a, k);
    FlatMapAt(BitsOf, b, k);
    assert MessageBits(a)[j] == MessageBits(a)[8 * k..8 * k + 8][j - 8 * k];
    assert MessageBits(b)[j] == MessageBits(b)[8 * k..8 * k + 8][j - 8 * k];
  }

  // Buffers of equal length that differ only within four consecutive bytes have different check values.
  lemma FourBytesDetected(a: Bytes, b: Bytes, i: nat)
    requires |a| == |b| && a != b && forall j :: 0 <= j < |a| && !(i <= j < i + 4) ==> a[j] == b[j]
    ensures CrcOf(a) != CrcOf(b)
  {
    var x, y := MessageBits(a), MessageBits(b);
    forall j | 0 <= j < |x| && !(8 * i <= j < 8 * i + 32) ensures x[j] == y[j] { SameBit(a, b, j); }
    var k :| 0 <= k < |a| && a[k] != b[k];
    FlatMapAt(BitsOf, a, k);
    FlatMapAt(BitsOf, b, k);
    ByteBitsInjective(a[k], b[k]);
    BurstDetected(a, b, 8 * i);
  }
}
