/** Polynomials over the two-element field, as coefficients with the highest power first. */
module BinaryPolynomials {

  function Add(a: seq<bool>, b: seq<bool>): (r: seq<bool>)
    requires |a| == |b|
  {
    seq(|a|, i requires 0 <= i < |a| => a[i] != b[i])
  }

  function Zeros(n: nat): seq<bool> { seq(n, _ => false) }

  // One line of long division by g: the leading coefficient goes, with g subtracted if it was set.
  function Reduce(s: seq<bool>, g: seq<bool>): (r: seq<bool>)
    requires 0 < |g| <= |s|
    ensures |r| == |s| - 1
  {
    (if s[0] then Add(s[1..|g|], g[1..]) else s[1..|g|]) + s[|g|..]
  }

  function Remainder(s: seq<bool>, g: seq<bool>): (r: seq<bool>)
    requires |s| + 1 >= |g| > 0
    ensures |r| == |g| - 1
    decreases |s|
  {
    if |s| < |g| then s else Remainder(Reduce(s, g), g)
  }

  // q times g.
  function Product(q: seq<bool>, g: seq<bool>): (r: seq<bool>)
    requires |g| > 0
    ensures |r| == |q| + |g| - 1
  {
    if q == [] then Zeros(|g| - 1)
    else Add(if q[0] then g + Zeros(|q| - 1) else Zeros(|q| + |g| - 1), [false] + Product(q[1..], g))
  }

  // q times g plus r.
  function Recombined(q: seq<bool>, g: seq<bool>, r: seq<bool>): (s: seq<bool>)
    requires |r| + 1 == |g|
    ensures |s| == |q| + |r|
  {
    Add(Product(q, g), Zeros(|q|) + r)
  }

  // s is x * t plus, when lead is set, g times the highest power that fits.
  ghost predicate SumAt(s: seq<bool>, t: seq<bool>, lead: bool, g: seq<bool>, i: nat) {
    i < |s| == |t| + 1 ==> s[i] == ((lead && i < |g| && g[i]) != (i > 0 && t[i - 1]))
  }

  lemma ReduceAt(s: seq<bool>, g: seq<bool>, i: nat)
    requires 0 < |g| <= |s| && i + 1 < |s|
    ensures Reduce(s, g)[i] == (s[i + 1] != (s[0] && i + 1 < |g| && g[i + 1]))
  {
  }

  lemma ReduceSum(s: seq<bool>, t: seq<bool>, lead: bool, g: seq<bool>)
    requires 0 < |g| <= |s| == |t| + 1 && g[0] && forall i {:trigger SumAt(s, t, lead, g, i)} :: SumAt(s, t, lead, g, i)
    ensures s[0] == lead && Reduce(s, g) == t
  {
    assert SumAt(s, t, lead, g, 0);
    forall i | 0 <= i < |t| ensures Reduce(s, g)[i] == t[i] {
      assert SumAt(s, t, lead, g, i + 1);
      ReduceAt(s, g, i);
    }
  }

  lemma ReduceInjective(s: seq<bool>, u: seq<bool>, g: seq<bool>)
    requires 0 < |g| <= |s| == |u| && s[0] == u[0] && Reduce(s, g) == Reduce(u, g)
    ensures s == u
  {
    forall i | 0 < i < |s| ensures s[i] == u[i] {
      ReduceAt(s, g, i - 1);
      ReduceAt(u, g, i - 1);
    }
  }

  lemma AddAt(a: seq<bool>, b: seq<bool>, i: nat)
    requires |a| == |b| && i < |a|
    ensures Add(a, b)[i] == (a[i] != b[i])
  {
  }

  lemma ProductAt(q: seq<bool>, g: seq<bool>, i: nat)
    requires |g| > 0 && q != [] && i < |q| + |g| - 1
    ensures Product(q, g)[i] == ((q[0] && i < |g| && g[i]) != (i > 0 && Product(q[1..], g)[i - 1]))
  {
    AddAt(if q[0] then g + Zeros(|q| - 1) else Zeros(|q| + |g| - 1), [false] + Product(q[1..], g), i);
  }

  lemma RecombinedStep(q: seq<bool>, g: seq<bool>, r: seq<bool>)
    requires |r| + 1 == |g| && g[0] && q != []
    ensures Recombined(q, g, r)[0] == q[0] && Reduce(Recombined(q, g, r), g) == Recombined(q[1..], g, r)
  {
    var s, t := Recombined(q, g, r), Recombined(q[1..], g, r);
    forall i: nat ensures SumAt(s, t, q[0], g, i) {
      if i < |s| {
        ProductAt(q, g, i);
        AddAt(Product(q, g), Zeros(|q|) + r, i);
        if i > 0 { AddAt(Product(q[1..], g), Zeros(|q| - 1) + r, i - 1); }
      }
    }
    ReduceSum(s, t, q[0], g);
  }

  lemma ReduceStep(s: seq<bool>, g: seq<bool>, q: seq<bool>, r: seq<bool>)
    requires 0 < |g| <= |s| && g[0] && |r| + 1 == |g| && |q| + |g| == |s| && Reduce(s, g) == Recombined(q, g, r)
    ensures s == Recombined([s[0]] + q, g, r)
  {
    RecombinedStep([s[0]] + q, g, r);
    assert ([s[0]] + q)[1..] == q;
    ReduceInjective(s, Recombined([s[0]] + q, g, r), g);
  }

  // Long division finds a quotient: s = q * g + remainder.
  lemma {:induction false} DivisionHolds(s: seq<bool>, g: seq<bool>) returns (q: seq<bool>)
    requires |s| + 1 >= |g| > 0 && g[0]
    ensures |q| + |g| == |s| + 1 && s == Recombined(q, g, Remainder(s, g))
    decreases |s|
  {
    if |s| < |g| {
      q := [];
    } else {
      var rest := DivisionHolds(Reduce(s, g), g);
      q := [s[0]] + rest;
      ReduceStep(s, g, rest, Remainder(s, g));
    }
  }

  // There is only one remainder.
  lemma {:induction false} RemainderUnique(q: seq<bool>, g: seq<bool>, r: seq<bool>)
    requires |r| + 1 == |g| && g[0]
    ensures Remainder(Recombined(q, g, r), g) == r
    decreases |q|
  {
    if q == [] {
      assert Recombined(q, g, r) == r;
    } else {
      RecombinedStep(q, g, r);
      RemainderUnique(q[1..], g, r);
    }
  }
}

/** What the check value is apart from any register: a remainder modulo the generator polynomial of
    section 3.4 of RFC 2083. */
module CrcRemainder {
  import opened Crc
  import opened Registers
  import opened CrcBurst
  import opened BinaryPolynomials

  // The powers of x in the generator.
  const POWERS: set<nat> := {32, 26, 23, 22, 16, 12, 11, 10, 8, 7, 5, 4, 2, 1, 0}

  function Generator(): (g: seq<bool>)
    ensures |g| == 33 && g[0]
  {
    seq(33, i requires 0 <= i < 33 => 32 - i in POWERS)
  }

  // A register as a polynomial: its lowest bit is the coefficient of x^31.
  function Word(w: bv32): (r: seq<bool>)
    ensures |r| == 32
  {
    WordBits(Low, Half, w, 32)
  }

  // ----- words as polynomials -----

  lemma {:induction false} WordBitsAdd<T(!new)>(low: T -> bool, half: T -> T, add: (T, T) -> T, a: T, b: T, n: nat)
    requires forall x, y :: low(add(x, y)) == (low(x) != low(y)) && half(add(x, y)) == add(half(x), half(y))
    ensures WordBits(low, half, add(a, b), n) == Add(WordBits(low, half, a, n), WordBits(low, half, b, n))
    decreases n
  {
    if n > 0 { WordBitsAdd(low, half, add, half(a), half(b), n - 1); }
  }

  lemma {:induction false} WordBitsLast<T>(low: T -> bool, half: T -> T, w: T, n: nat)
    ensures WordBits(low, half, w, n + 1) == WordBits(low, half, w, n) + [low(Iterate(half, w, n))]
    decreases n
  {
    if n > 0 { WordBitsLast(low, half, half(w), n - 1); }
  }

  lemma LowOfXor(a: bv32, b: bv32)
    ensures Low(Xor(a, b)) == (Low(a) != Low(b))
  {
  }

  lemma HalfOfXor(a: bv32, b: bv32)
    ensures Half(Xor(a, b)) == Xor(Half(a), Half(b))
  {
  }

  lemma WordOfXor(a: bv32, b: bv32)
    ensures Word(Xor(a, b)) == Add(Word(a), Word(b))
  {
    forall x, y ensures Low(Xor(x, y)) == (Low(x) != Low(y)) && Half(Xor(x, y)) == Xor(Half(x), Half(y)) {
      LowOfXor(x, y);
      HalfOfXor(x, y);
    }
    WordBitsAdd(Low, Half, Xor, a, b, 32);
  }

  lemma FourTimesEight<T>(f: T -> T, a: T, b: T, c: T, d: T, e: T)
    requires Iterate(f, a, 8) == b && Iterate(f, b, 8) == c && Iterate(f, c, 8) == d && Iterate(f, d, 8) == e
    ensures Iterate(f, a, 32) == e
  {
    IterateSum(f, a, 8, 24);
    IterateSum(f, b, 8, 16);
    IterateSum(f, c, 8, 8);
  }

  lemma LastByte(a: bv32, b: bv32, c: bv32, d: bv32)
    requires b == a >> 8 && c == b >> 8 && d == c >> 8
    ensures d <= 0xff
  {
  }

  lemma VanishesVia(a: bv32, b: bv32, c: bv32, d: bv32)
    requires b == a >> 8 && c == b >> 8 && d == c >> 8
    ensures Iterate(Half, a, 32) == 0
  {
    EightHalves(a, b);
    EightHalves(b, c);
    EightHalves(c, d);
    LastByte(a, b, c, d);
    ByteVanishes(d);
    FourTimesEight(Half, a, b, c, d, 0);
  }

  lemma WordVanishes(a: bv32)
    ensures Iterate(Half, a, 32) == 0
  {
    var b := a >> 8;
    var c := b >> 8;
    var d := c >> 8;
    VanishesVia(a, b, c, d);
  }

  lemma ZeroIsEven()
    ensures !Low(0)
  {
  }

  lemma HalfBits<T>(low: T -> bool, half: T -> T, w: T, n: nat)
    requires n > 0 && !low(Iterate(half, w, n))
    ensures WordBits(low, half, half(w), n) == WordBits(low, half, w, n)[1..] + [false]
  {
    WordBitsLast(low, half, w, n);
    assert WordBits(low, half, w, n + 1)[1..] == WordBits(low, half, half(w), n);
  }

  lemma WordOfHalf(c: bv32)
    ensures Word(Half(c)) == Word(c)[1..] + [false]
  {
    WordVanishes(c);
    ZeroIsEven();
    HalfBits(Low, Half, c, 32);
  }

  lemma {:induction false} WordBitsSplit<T>(low: T -> bool, half: T -> T, w: T, m: nat, n: nat)
    ensures WordBits(low, half, w, m + n) == WordBits(low, half, w, m) + WordBits(low, half, Iterate(half, w, m), n)
    decreases m
  {
    if m > 0 { WordBitsSplit(low, half, half(w), m - 1, n); }
  }

  lemma FourParts<T>(low: T -> bool, half: T -> T, a: T, b: T, c: T, d: T)
    requires Iterate(half, a, 8) == b && Iterate(half, b, 8) == c && Iterate(half, c, 8) == d
    ensures WordBits(low, half, a, 32) ==
      WordBits(low, half, a, 8) + WordBits(low, half, b, 8) + WordBits(low, half, c, 8) + WordBits(low, half, d, 8)
  {
    WordBitsSplit(low, half, a, 8, 24);
    WordBitsSplit(low, half, b, 8, 16);
    WordBitsSplit(low, half, c, 8, 8);
  }

  lemma FourBytes(a: bv32, b: bv32, c: bv32, d: bv32)
    requires b == a >> 8 && c == b >> 8 && d == c >> 8
    ensures Word(a) == ByteBits(a) + ByteBits(b) + ByteBits(c) + ByteBits(d)
  {
    EightHalves(a, b);
    EightHalves(b, c);
    EightHalves(c, d);
    FourParts(Low, Half, a, b, c, d);
  }

  lemma LowestByte()
    ensures ByteBits(0xEDB88320) == [false, false, false, false, false, true, false, false]
  {
  }

  lemma SecondByte()
    ensures ByteBits(0x00EDB883) == [true, true, false, false, false, false, false, true]
  {
  }

  lemma ThirdByte()
    ensures ByteBits(0x0000EDB8) == [false, false, false, true, true, true, false, true]
  {
  }

  lemma HighestByte()
    ensures ByteBits(0x000000ED) == [true, false, true, true, false, true, true, true]
  {
  }

  // The constant of the register holds the generator without its leading coefficient.
  lemma WordOfPolynomial()
    ensures Word(POLYNOMIAL) == Generator()[1..]
  {
    FourBytes(0xEDB88320, 0x00EDB883, 0x0000EDB8, 0x000000ED);
    LowestByte();
    SecondByte();
    ThirdByte();
    HighestByte();
    GeneratorBytes();
  }

  lemma GeneratorBytes()
    ensures Generator()[1..] ==
      [false, false, false, false, false, true, false, false] + [true, true, false, false, false, false, false, true]
      + [false, false, false, true, true, true, false, true] + [true, false, true, true, false, true, true, true]
  {
  }

  // ----- the register divides -----

  lemma FedBit(c: bv32, b: bool)
    ensures Low(Xor(c, BitOf(b))) == (Low(c) != b) && Half(Xor(c, BitOf(b))) == Half(c)
  {
  }

  lemma ShiftByParity(x: bv32)
    ensures Shift(x) == if Low(x) then Xor(POLYNOMIAL, Half(x)) else Half(x)
  {
  }

  // Feeding one bit is one line of the division.
  lemma WordOfFeed(c: bv32, b: bool)
    ensures Word(c)[0] == Low(c)
    ensures Word(FeedBit(c, b)) ==
      if Low(c) != b then Add(Generator()[1..], Word(c)[1..] + [false]) else Word(c)[1..] + [false]
  {
    FedBit(c, b);
    ShiftByParity(Xor(c, BitOf(b)));
    WordOfHalf(c);
    WordOfXor(POLYNOMIAL, Half(c));
    WordOfPolynomial();
  }

  // The polynomial still to be divided when the register holds w and the bits are to come.
  function Dividend(w: seq<bool>, bits: seq<bool>): (s: seq<bool>)
    requires |w| == 32
    ensures |s| == |bits| + 32
  {
    Add(bits + Zeros(32), w + Zeros(|bits|))
  }

  lemma DividendStep(w: seq<bool>, bits: seq<bool>, next: seq<bool>, g: seq<bool>)
    requires |w| == |next| == 32 && |g| == 33 && bits != []
    requires next == if w[0] != bits[0] then Add(g[1..], w[1..] + [false]) else w[1..] + [false]
    ensures Reduce(Dividend(w, bits), g) == Dividend(next, bits[1..])
  {
    var s, t := Dividend(w, bits), Dividend(next, bits[1..]);
    forall i | 0 <= i < |t| ensures Reduce(s, g)[i] == t[i] {
      assert s[i + 1] == ((i + 1 < |bits| && bits[i + 1]) != (i + 1 < 32 && w[i + 1]));
      assert t[i] == ((i + 1 < |bits| && bits[i + 1]) != (i < 32 && next[i]));
    }
  }

  lemma {:induction false} FeedDivides(c: bv32, bits: seq<bool>)
    ensures Remainder(Dividend(Word(c), bits), Generator()) == Word(Feed(c, bits))
    decreases |bits|
  {
    if bits == [] {
      assert Dividend(Word(c), bits) == Word(c);
    } else {
      WordOfFeed(c, bits[0]);
      DividendStep(Word(c), bits, Word(FeedBit(c, bits[0])), Generator());
      FeedDivides(FeedBit(c, bits[0]), bits[1..]);
    }
  }

  // ----- the check value -----

  function Complement(s: seq<bool>): (r: seq<bool>) {
    seq(|s|, i requires 0 <= i < |s| => !s[i])
  }

  // The message followed by 32 zero coefficients, with the first 32 of all these complemented.
  function Padded(bits: seq<bool>): (r: seq<bool>)
    ensures |r| == |bits| + 32
  {
    var s := bits + Zeros(32);
    Complement(s[..32]) + s[32..]
  }

  lemma OnesByte(w: bv32)
    requires w & 0xff == 0xff
    ensures ByteBits(w) == [true, true, true, true, true, true, true, true]
  {
  }

  lemma WordOfOnes()
    ensures forall i :: 0 <= i < 32 ==> Word(0xffffffff)[i]
  {
    FourBytes(0xffffffff, 0x00ffffff, 0x0000ffff, 0x000000ff);
    OnesByte(0xffffffff);
    OnesByte(0x00ffffff);
    OnesByte(0x0000ffff);
    OnesByte(0x000000ff);
  }

  lemma ComplementBits(x: bv32)
    ensures Word(Xor(x, 0xffffffff)) == Complement(Word(x))
  {
    WordOfXor(x, 0xffffffff);
    WordOfOnes();
  }

  lemma PaddedIsDividend(bits: seq<bool>)
    ensures Padded(bits) == Dividend(Word(0xffffffff), bits)
  {
    WordOfOnes();
  }

  lemma CrcIsComplement(buffer: Bytes)
    ensures CrcOf(buffer) == Xor(Register(0xffffffff, buffer), 0xffffffff)
  {
  }

  // The check value is the complemented remainder of the padded message modulo the generator.
  lemma CrcIsRemainder(buffer: Bytes)
    ensures Word(CrcOf(buffer)) == Complement(Remainder(Padded(MessageBits(buffer)), Generator()))
  {
    CrcIsComplement(buffer);
    ComplementBits(Register(0xffffffff, buffer));
    RegisterFeeds(0xffffffff, buffer);
    FeedDivides(0xffffffff, MessageBits(buffer));
    PaddedIsDividend(MessageBits(buffer));
  }

  // It is the only word whose complement leaves a multiple of the generator.
  lemma CrcDivides(buffer: Bytes, w: bv32)
    ensures w == CrcOf(buffer) <==>
      exists q :: |q| == 8 * |buffer| && Padded(MessageBits(buffer)) == Recombined(q, Generator(), Complement(Word(w)))
  {
    var s, g := Padded(MessageBits(buffer)), Generator();
    CrcIsRemainder(buffer);
    if w == CrcOf(buffer) {
      var q := DivisionHolds(s, g);
      assert Complement(Word(w)) == Remainder(s, g);
    }
    forall q | |q| == 8 * |buffer| && s == Recombined(q, g, Complement(Word(w))) ensures w == CrcOf(buffer) {
      RemainderUnique(q, g, Complement(Word(w)));
      assert Complement(Complement(Word(w))) == Word(w);
      WordInjective(w, CrcOf(buffer));
    }
  }

  lemma WordInjective(x: bv32, y: bv32)
    requires Word(x) == Word(y)
    ensures x == y
  {
    forall a, b | Low(a) == Low(b) && Half(a) == Half(b) ensures a == b { HalfAndLow(a, b); }
    WordVanishes(x);
    WordVanishes(y);
    WordBitsInjective(Low, Half, x, y, 32);
  }

  // ----- the published check value -----

  // The digits 1 to 9 in ASCII.
  const CHECK_INPUT: Bytes := [0x31, 0x32, 0x33, 0x34, 0x35, 0x36, 0x37, 0x38, 0x39]

  lemma FedByte(n: nat, c: bv32, b: bv8, d: bv32)
    requires n < 9 && CHECK_INPUT[n] == b && Shifts(c ^ (b as bv32), 8) == d
    ensures Register(c, CHECK_INPUT[n..]) == Register(d, CHECK_INPUT[n + 1..])
  {
    assert CHECK_INPUT[n..][1..] == CHECK_INPUT[n + 1..];
  }

  lemma Digit1()
    ensures Register(0xFFFFFFFF, CHECK_INPUT[0..]) == Register(0x7C231048, CHECK_INPUT[1..])
  {
    FedByte(0, 0xFFFFFFFF, 0x31, 0x7C231048);
  }

  lemma Digit2()
    ensures Register(0x7C231048, CHECK_INPUT[1..]) == Register(0xB0ACBB32, CHECK_INPUT[2..])
  {
    FedByte(1, 0x7C231048, 0x32, 0xB0ACBB32);
  }

  lemma Digit3()
    ensures Register(0xB0ACBB32, CHECK_INPUT[2..]) == Register(0x77B79C2D, CHECK_INPUT[3..])
  {
    FedByte(2, 0xB0ACBB32, 0x33, 0x77B79C2D);
  }

  lemma Digit4()
    ensures Register(0x77B79C2D, CHECK_INPUT[3..]) == Register(0x641C1F5C, CHECK_INPUT[4..])
  {
    FedByte(3, 0x77B79C2D, 0x34, 0x641C1F5C);
  }

  lemma Digit5()
    ensures Register(0x641C1F5C, CHECK_INPUT[4..]) == Register(0x340AC5E3, CHECK_INPUT[5..])
  {
    FedByte(4, 0x641C1F5C, 0x35, 0x340AC5E3);
  }

  lemma Digit6()
    ensures Register(0x340AC5E3, CHECK_INPUT[5..]) == Register(0xF68D2C9E, CHECK_INPUT[6..])
  {
    FedByte(5, 0x340AC5E3, 0x36, 0xF68D2C9E);
  }

  lemma Digit7()
    ensures Register(0xF68D2C9E, CHECK_INPUT[6..]) == Register(0xAFFC9660, CHECK_INPUT[7..])
  {
    FedByte(6, 0xF68D2C9E, 0x37, 0xAFFC9660);
  }

  lemma Digit8()
    ensures Register(0xAFFC9660, CHECK_INPUT[7..]) == Register(0x651F2550, CHECK_INPUT[8..])
  {
    FedByte(7, 0xAFFC9660, 0x38, 0x651F2550);
  }

  lemma Digit9()
    ensures Register(0x651F2550, CHECK_INPUT[8..]) == Register(0x340BC6D9, CHECK_INPUT[9..])
  {
    FedByte(8, 0x651F2550, 0x39, 0x340BC6D9);
  }

  lemma FirstDigits()
    ensures Register(0xFFFFFFFF, CHECK_INPUT[0..]) == Register(0x340AC5E3, CHECK_INPUT[5..])
  {
    Digit1();
    Digit2();
    Digit3();
    Digit4();
    Digit5();
  }

  lemma LastDigits()
    ensures Register(0x340AC5E3, CHECK_INPUT[5..]) == 0x340BC6D9
  {
    Digit6();
    Digit7();
    Digit8();
    Digit9();
    assert CHECK_INPUT[9..] == [];
  }

  lemma CheckValue()
    ensures CrcOf(CHECK_INPUT) == 0xCBF43926
  {
    FirstDigits();
    LastDigits();
    assert CHECK_INPUT[0..] == CHECK_INPUT;
  }
}
