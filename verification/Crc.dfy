/** The cyclic redundancy check of PNG chunks: table-driven, and as a shift register. */
module Crc {

  const POLYNOMIAL: bv32 := 0xEDB88320

  // One shift of the register.
  function Shift(c: bv32): bv32 {
    if c & 1 == 1 then POLYNOMIAL ^ (c >> 1) else c >> 1
  }

  function Iterate<T>(f: T -> T, c: T, n: nat): T
    decreases n
  {
    if n == 0 then c else Iterate(f, f(c), n - 1)
  }

  // The register after n shifts.
  function Shifts(c: bv32, n: nat): bv32 {
    Iterate(Shift, c, n)
  }

  // ----- the register is linear and reversible -----

  lemma ShiftOddOdd(a: bv32, b: bv32)
    requires a & 1 == 1 && b & 1 == 1
    ensures Shift(a ^ b) == Shift(a) ^ Shift(b)
  {
  }

  lemma ShiftOddEven(a: bv32, b: bv32)
    requires a & 1 == 1 && b & 1 == 0
    ensures Shift(a ^ b) == Shift(a) ^ Shift(b) && Shift(b ^ a) == Shift(b) ^ Shift(a)
  {
  }

  lemma ShiftEvenEven(a: bv32, b: bv32)
    requires a & 1 == 0 && b & 1 == 0
    ensures Shift(a ^ b) == Shift(a) ^ Shift(b)
  {
  }

  lemma LowBit(a: bv32)
    ensures a & 1 == 0 || a & 1 == 1
  {
  }

  lemma ShiftLinear(a: bv32, b: bv32)
    ensures Shift(a ^ b) == Shift(a) ^ Shift(b)
  {
    LowBit(a);
    LowBit(b);
    if a & 1 == 1 {
      if b & 1 == 1 { ShiftOddOdd(a, b); } else { ShiftOddEven(a, b); }
    } else {
      if b & 1 == 1 { ShiftOddEven(b, a); } else { ShiftEvenEven(a, b); }
    }
  }

  lemma ShiftInjective(a: bv32, b: bv32)
    requires Shift(a) == Shift(b)
    ensures a == b
  {
  }

  function Xor(a: bv32, b: bv32): bv32 { a ^ b }

  ghost predicate Linear<T(!new)>(f: T -> T, add: (T, T) -> T) {
    forall x, y :: f(add(x, y)) == add(f(x), f(y))
  }

  lemma {:induction false} IterateLinear<T(!new)>(f: T -> T, add: (T, T) -> T, a: T, b: T, n: nat)
    requires Linear(f, add)
    ensures Iterate(f, add(a, b), n) == add(Iterate(f, a, n), Iterate(f, b, n))
    decreases n
  {
    if n > 0 { IterateLinear(f, add, f(a), f(b), n - 1); }
  }

  lemma RegisterLinear()
    ensures Linear(Shift, Xor)
  {
    forall x, y ensures Shift(Xor(x, y)) == Xor(Shift(x), Shift(y)) { ShiftLinear(x, y); }
  }

  // Splitting off a part whose image is already known.
  lemma IterateSplit<T(!new)>(f: T -> T, add: (T, T) -> T, x: T, lo: T, hi: T, image: T, n: nat)
    requires Linear(f, add) && x == add(lo, hi) && Iterate(f, hi, n) == image
    ensures add(Iterate(f, lo, n), image) == Iterate(f, x, n)
  {
    IterateLinear(f, add, lo, hi, n);
  }

  // With eight clear low bits the register only shifts.
  lemma ShiftsHigh(c: bv32, high: bv32)
    requires c & 0xff == 0 && c >> 8 == high
    ensures Iterate(Shift, c, 8) == high
  {
  }

  lemma SplitByte(x: bv32)
    ensures x == Xor(x & 0xff, x & 0xffffff00) && (x & 0xffffff00) & 0xff == 0
  {
  }

  lemma HighBytes(crc: bv32, b: bv32)
    requires b <= 0xff
    ensures ((crc ^ b) & 0xffffff00) >> 8 == (crc >> 8) & 0x00ffffff
  {
  }

  lemma HighBytesShift(crc: bv32, b: bv32)
    requires b <= 0xff
    ensures Iterate(Shift, (crc ^ b) & 0xffffff00, 8) == (crc >> 8) & 0x00ffffff
  {
    SplitByte(crc ^ b);
    HighBytes(crc, b);
    ShiftsHigh((crc ^ b) & 0xffffff00, (crc >> 8) & 0x00ffffff);
  }

  // One table look-up does the work of eight shifts.
  lemma TableStep(crc: bv32, b: bv32)
    requires b <= 0xff
    ensures Xor(Shifts((crc ^ b) & 0xff, 8), (crc >> 8) & 0x00ffffff) == Shifts(crc ^ b, 8)
  {
    var x := crc ^ b;
    RegisterLinear();
    SplitByte(x);
    HighBytesShift(crc, b);
    IterateSplit(Shift, Xor, x, x & 0xff, x & 0xffffff00, (crc >> 8) & 0x00ffffff, 8);
  }

  // ----- the check value of a buffer -----

  type Bytes = seq<bv8>

  // The register after the bits of every byte have been fed in, lowest bit first.
  function Register(c: bv32, buffer: Bytes): bv32
    decreases |buffer|
  {
    if buffer == [] then c else Register(Shifts(c ^ (buffer[0] as bv32), 8), buffer[1..])
  }

  function CrcOf(buffer: Bytes): bv32 {
    Register(0xffffffff, buffer) ^ 0xffffffff
  }

  function TableEntry(i: int): bv32
    requires 0 <= i < 256
  {
    Shifts(i as bv32, 8)
  }

  ghost predicate IsTable(t: seq<bv32>) {
    |t| == 256 && forall i :: 0 <= i < 256 ==> t[i] == TableEntry(i)
  }

  lemma {:induction false} IterateLast<T>(f: T -> T, c: T, n: nat)
    ensures Iterate(f, c, n + 1) == f(Iterate(f, c, n))
    decreases n
  {
    if n > 0 { IterateLast(f, f(c), n - 1); }
  }

  lemma MaskedShift(c: bv32)
    ensures (c >> 1) & 0x7fffffff == c >> 1
  {
  }

  method TableCell(i: bv32) returns (c: bv32)
    ensures c == Shifts(i, 8)
  {
    c := i;
    for k := 0 to 8
      invariant c == Iterate(Shift, i, k)
    {
      IterateLast(Shift, i, k);
      MaskedShift(c);
      if c & 1 == 1 { c := POLYNOMIAL ^ ((c >> 1) & 0x7fffffff); } else { c := c >> 1; }
    }
  }

  method MakeCrcTable(crcTable: array<bv32>)
    requires crcTable.Length == 256
    modifies crcTable
    ensures IsTable(crcTable[..])
  {
    for i := 0 to 256
      invariant forall j :: 0 <= j < i ==> crcTable[j] == TableEntry(j)
    {
      var c := TableCell(i as bv32);
      crcTable[i] := c;
    }
  }

  lemma Cell(t: seq<bv32>, v: bv32)
    requires IsTable(t) && v <= 0xff
    ensures v as int < 256 && t[v as int] == Shifts(v, 8)
  {
    assert (v as int) as bv32 == v;
    assert t[v as int] == TableEntry(v as int);
  }

  lemma Widened(b: bv8)
    ensures (b as bv32) <= 0xff
  {
  }

  lemma LowByte(v: bv32)
    ensures v & 0xff <= 0xff
  {
  }

  lemma LookUp(t: seq<bv32>, crc: bv32, b: bv32, v: bv32, image: bv32)
    requires IsTable(t) && b <= 0xff && v == (crc ^ b) & 0xff && image == Shifts(crc ^ b, 8)
    ensures v as int < 256 && Xor(t[v as int], (crc >> 8) & 0x00ffffff) == image
  {
    LowByte(crc ^ b);
    Cell(t, v);
    TableStep(crc, b);
  }

  lemma {:induction false} RegisterSplit(c: bv32, a: Bytes, b: Bytes)
    ensures Register(c, a + b) == Register(Register(c, a), b)
    decreases |a|
  {
    if a == [] {
      assert a + b == b;
    } else {
      assert (a + b)[0] == a[0] && (a + b)[1..] == a[1..] + b;
      RegisterSplit(Shifts(c ^ (a[0] as bv32), 8), a[1..], b);
    }
  }

  method TableByte(crcTable: array<bv32>, crc: bv32, b: bv8) returns (r: bv32)
    requires crcTable.Length == 256 && IsTable(crcTable[..])
    ensures r == Shifts(crc ^ (b as bv32), 8)
  {
    var v := (crc ^ (b as bv32)) & 0xff;
    Widened(b);
    LookUp(crcTable[..], crc, b as bv32, v, Shifts(crc ^ (b as bv32), 8));
    r := Xor(crcTable[v as int], (crc >> 8) & 0x00ffffff);
  }

  method RunTable(crcTable: array<bv32>, start: bv32, buffer: Bytes) returns (crc: bv32)
    requires crcTable.Length == 256 && IsTable(crcTable[..])
    ensures crc == Register(start, buffer)
  {
    crc := start;
    for i := 0 to |buffer|
      invariant crc == Register(start, buffer[..i])
    {
      RegisterSnoc(start, buffer, i);
      crc := TableByte(crcTable, crc, buffer[i]);
    }
    assert buffer[..|buffer|] == buffer;
  }

  /** The function's static table, filled on the first call and kept. */
  class Cache {
    const crcTable: array<bv32>
    var crcTableComputed: bool

    ghost predicate Valid()
      reads this, crcTable
    {
      crcTable.Length == 256 && (crcTableComputed ==> IsTable(crcTable[..]))
    }

    constructor ()
      ensures Valid() && fresh(crcTable) && !crcTableComputed
    {
      crcTable := new bv32[256];
      crcTableComputed := false;
    }

    method ComputeCrc(buffer: Bytes) returns (crc: bv32)
      requires Valid()
      modifies this, crcTable
      ensures Valid() && crcTableComputed
      ensures crc == CrcOf(buffer)
    {
      if !crcTableComputed {
        MakeCrcTable(crcTable);
        crcTableComputed := true;
      }
      crc := RunTable(crcTable, 0xffffffff, buffer);
      crc := crc ^ 0xffffffff;
    }
  }

  lemma RegisterSnoc(c: bv32, buffer: Bytes, i: nat)
    requires i < |buffer|
    ensures Register(c, buffer[..i + 1]) == Shifts(Register(c, buffer[..i]) ^ (buffer[i] as bv32), 8)
  {
    assert buffer[..i + 1] == buffer[..i] + [buffer[i]];
    RegisterSplit(c, buffer[..i], [buffer[i]]);
  }
}
