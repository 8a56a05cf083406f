/**
 CRC-32 as the firmware computes it, bit by bit, and as the web page computes
 it, through a table of 256 entries; and the CRC-16 of the flash records.
 */
module Crc {
  import opened Bytes

  /** One bit of the reflected CRC-32 register. */
  function Shift(c: bv32): bv32 {
    if c & 1 != 0 then (c >> 1) ^ 0xEDB8_8320 else c >> 1
  }

  function ShiftN(c: bv32, n: nat): bv32
    decreases n
  {
    if n == 0 then c else ShiftN(Shift(c), n - 1)
  }

  function Octet(b: byte): bv32 { (b as bv8) as bv32 }

  /** The low byte of the register, as a table index. */
  function Low(c: bv32): byte { ((c & 0xFF) as bv8) as int }

  function Mix(c: bv32, b: byte): bv32 { c ^ Octet(b) }

  /** The register after one byte: exclusive or, then eight bit steps. */
  function Absorb(c: bv32, b: byte): bv32 { ShiftN(Mix(c, b), 8) }

  /** The complement both programs return. */
  function Finish(c: bv32): (r: int)
    ensures 0 <= r < 0x1_0000_0000
  {
    (c ^ 0xFFFF_FFFF) as int
  }

  /** The register after `data`: the definition both programs are held to. */
  function Register(data: seq<byte>): bv32 {
    if data == [] then 0xFFFF_FFFF else Absorb(Register(data[..|data| - 1]), data[|data| - 1])
  }

  function Crc32(data: seq<byte>): (r: int)
    ensures 0 <= r < 0x1_0000_0000
  {
    Finish(Register(data))
  }

  /** `x` is the exclusive or of `a` and `b`, named so that proofs can carry it without the bits. */
  ghost predicate IsXor(x: bv32, a: bv32, b: bv32) { x == a ^ b }

  ghost predicate Halves(x: bv32, y: bv32) { x & 1 == 0 && y == x >> 1 }

  lemma XorFacts(a: bv32, b: bv32, p: bv32)
    ensures (a ^ p) ^ b == (a ^ b) ^ p && a ^ (b ^ p) == (a ^ b) ^ p && (a ^ p) ^ (b ^ p) == a ^ b
    ensures (a ^ b) >> 1 == (a >> 1) ^ (b >> 1) && (a ^ b) & 1 == (a & 1) ^ (b & 1)
    ensures (a & 1 == 0 || a & 1 == 1) && (b & 1 == 0 || b & 1 == 1)
  {
  }

  /** The shift step is linear over exclusive or. */
  lemma ShiftLinear(x: bv32, a: bv32, b: bv32)
    requires IsXor(x, a, b)
    ensures IsXor(Shift(x), Shift(a), Shift(b))
  {
    XorFacts(a, b, 0);
    XorFacts(a >> 1, b >> 1, 0xEDB8_8320);
    var p, q := a & 1, b & 1;
    if p == q { assert p ^ q == 0; } else { assert p ^ q == 1; }
  }

  lemma {:induction false} ShiftNLinear(x: bv32, a: bv32, b: bv32, n: nat)
    requires IsXor(x, a, b)
    ensures IsXor(ShiftN(x, n), ShiftN(a, n), ShiftN(b, n))
    decreases n
  {
    if n > 0 {
      ShiftLinear(x, a, b);
      ShiftNLinear(Shift(x), Shift(a), Shift(b), n - 1);
    }
  }

  lemma ShiftEven(x: bv32, y: bv32, n: nat)
    requires n > 0 && Halves(x, y)
    ensures ShiftN(x, n) == ShiftN(y, n - 1)
  {
  }

  /** The bits of a register whose low byte is clear: eight halvings reach `h >> 8`. */
  lemma ByteHalves(h: bv32)
    requires h & 0xFF == 0
    ensures Halves(h, h >> 1) && Halves(h >> 1, h >> 2) && Halves(h >> 2, h >> 3) && Halves(h >> 3, h >> 4)
    ensures Halves(h >> 4, h >> 5) && Halves(h >> 5, h >> 6) && Halves(h >> 6, h >> 7) && Halves(h >> 7, h >> 8)
  {
  }

  lemma ShiftNibble(h0: bv32, h1: bv32, h2: bv32, h3: bv32, h4: bv32, n: nat)
    requires Halves(h0, h1) && Halves(h1, h2) && Halves(h2, h3) && Halves(h3, h4)
    ensures ShiftN(h0, n + 4) == ShiftN(h4, n)
  {
    ShiftEven(h0, h1, n + 4);
    ShiftEven(h1, h2, n + 3);
    ShiftEven(h2, h3, n + 2);
    ShiftEven(h3, h4, n + 1);
  }

  /** A register whose low byte is clear just moves down a byte. */
  lemma ShiftHigh(h: bv32)
    requires h & 0xFF == 0
    ensures ShiftN(h, 8) == h >> 8
  {
    ByteHalves(h);
    ShiftNibble(h, h >> 1, h >> 2, h >> 3, h >> 4, 4);
    ShiftNibble(h >> 4, h >> 5, h >> 6, h >> 7, h >> 8, 0);
  }

  /** `h` has a clear low byte and `top` above it. */
  ghost predicate IsHigh(h: bv32, top: bv32) { h & 0xFF == 0 && h >> 8 == top }

  lemma IndexRoundTrip(v: bv8)
    ensures (v as int) as bv8 == v
  {
  }

  lemma OctetOf(v: bv8, b: byte)
    requires b == v as int
    ensures Octet(b) == v as bv32
  {
    IndexRoundTrip(v);
  }

  lemma Masked(x: bv32)
    ensures ((x & 0xFF) as bv8) as bv32 == x & 0xFF
  {
  }

  lemma LowByte(x: bv32)
    ensures Octet(Low(x)) == x & 0xFF
  {
    Masked(x);
    OctetOf((x & 0xFF) as bv8, Low(x));
  }

  lemma HighBytes(x: bv32, c: bv32, o: bv8)
    requires IsXor(x, c, o as bv32)
    ensures IsXor(x, x & 0xFF, x & 0xFFFF_FF00) && IsHigh(x & 0xFFFF_FF00, c >> 8)
  {
  }

  lemma SplitShift(x: bv32, lo: bv32, hi: bv32, top: bv32)
    requires IsXor(x, lo, hi) && IsHigh(hi, top)
    ensures IsXor(ShiftN(x, 8), ShiftN(lo, 8), top)
  {
    ShiftNLinear(x, lo, hi, 8);
    ShiftHigh(hi);
  }

  /** Eight bit steps absorb a byte exactly as one table lookup does: the law behind the table. */
  lemma TableStep(x: bv32, c: bv32, b: byte)
    requires IsXor(x, c, Octet(b))
    ensures IsXor(ShiftN(x, 8), ShiftN(Octet(Low(x)), 8), c >> 8)
  {
    LowByte(x);
    HighBytes(x, c, b as bv8);
    SplitShift(x, Octet(Low(x)), x & 0xFFFF_FF00, c >> 8);
  }

  lemma RegisterSnoc(data: seq<byte>, i: nat)
    requires i < |data|
    ensures Register(data[..i + 1]) == Absorb(Register(data[..i]), data[i])
  {
    assert data[..i + 1][..i] == data[..i];
  }

  /** The inner loop both programs share: eight bit steps. */
  method ShiftLoop(start: bv32) returns (c: bv32)
    ensures c == ShiftN(start, 8)
  {
    c := start;
    for k := 0 to 8
      invariant ShiftN(start, 8) == ShiftN(c, 8 - k)
    {
      c := if c & 1 != 0 then (c >> 1) ^ 0xEDB8_8320 else c >> 1;
    }
  }

  /** `crc32` of the firmware. */
  method Bitwise(data: seq<byte>) returns (r: int)
    ensures r == Crc32(data)
  {
    var crc: bv32 := 0xFFFF_FFFF;
    for i := 0 to |data|
      invariant crc == Register(data[..i])
    {
      RegisterSnoc(data, i);
      crc := ShiftLoop(Mix(crc, data[i]));
    }
    assert data[..|data|] == data;
    r := Finish(crc);
  }

  ghost predicate IsTable(t: seq<bv32>) {
    |t| == 256 && forall n: byte :: t[n] == ShiftN(Octet(n), 8)
  }

  /** The page's `CRC_TABLE`: entry `n` is eight shift steps of `n`. */
  method BuildTable() returns (t: array<bv32>)
    ensures fresh(t) && IsTable(t[..])
  {
    t := new bv32[256];
    for n := 0 to 256
      invariant forall m: byte :: m < n ==> t[m] == ShiftN(Octet(m), 8)
    {
      var c := ShiftLoop(Octet(n));
      t[n] := c;
    }
  }

  /** One step of the page's loop: a table entry and the rest of the register. */
  function Lookup(t: seq<bv32>, c: bv32, b: byte): bv32
    requires |t| == 256
  {
    t[Low(Mix(c, b))] ^ (c >> 8)
  }

  lemma LookupAbsorbs(t: seq<bv32>, c: bv32, b: byte)
    requires IsTable(t)
    ensures Lookup(t, c, b) == Absorb(c, b)
  {
    TableStep(Mix(c, b), c, b);
  }

  /** The page's `crc32`, over its table: the firmware's value for every byte string. */
  method TableDriven(t: array<bv32>, data: seq<byte>) returns (r: int)
    requires IsTable(t[..])
    ensures r == Crc32(data)
  {
    var c: bv32 := 0xFFFF_FFFF;
    for i := 0 to |data|
      invariant c == Register(data[..i])
    {
      RegisterSnoc(data, i);
      LookupAbsorbs(t[..], c, data[i]);
      c := Lookup(t[..], c, data[i]);
    }
    assert data[..|data|] == data;
    r := Finish(c);
  }

  // ------------------------------------------------------------ check value

  function Eight(c: bv32): bv32 { Shift(Shift(Shift(Shift(Shift(Shift(Shift(Shift(c)))))))) }

  lemma EightShifts(c: bv32)
    ensures ShiftN(c, 8) == Eight(c)
  {
    hide Shift;
    var c1, c2, c3, c4 := Shift(c), Shift(Shift(c)), Shift(Shift(Shift(c))), Shift(Shift(Shift(Shift(c))));
    assert ShiftN(c, 8) == ShiftN(c1, 7) == ShiftN(c2, 6) == ShiftN(c3, 5) == ShiftN(c4, 4);
    var c5, c6, c7 := Shift(c4), Shift(Shift(c4)), Shift(Shift(Shift(c4)));
    assert ShiftN(c4, 4) == ShiftN(c5, 3) == ShiftN(c6, 2) == ShiftN(c7, 1) == ShiftN(Shift(c7), 0);
  }

  /** The digits 1 to 9. */
  const DIGITS: seq<byte> := [0x31, 0x32, 0x33, 0x34, 0x35, 0x36, 0x37, 0x38, 0x39]

  lemma AbsorbDigit(n: nat, before: bv32, mixed: bv32, after: bv32)
    requires n < 9 && Register(DIGITS[..n]) == before && mixed == before ^ Octet(DIGITS[n]) && Eight(mixed) == after
    ensures Register(DIGITS[..n + 1]) == after
  {
    hide Eight, Octet, Register;
    EightShifts(mixed);
    RegisterSnoc(DIGITS, n);
  }

  /** Eight bit steps on the register with each digit from 1 to 9 mixed in. */
  lemma DigitSteps()
    ensures Eight(0xFFFF_FFCE) == 0x7C23_1048
    ensures Eight(0x7C23_107A) == 0xB0AC_BB32
    ensures Eight(0xB0AC_BB01) == 0x77B7_9C2D
    ensures Eight(0x77B7_9C19) == 0x641C_1F5C
    ensures Eight(0x641C_1F69) == 0x340A_C5E3
    ensures Eight(0x340A_C5D5) == 0xF68D_2C9E
    ensures Eight(0xF68D_2CA9) == 0xAFFC_9660
    ensures Eight(0xAFFC_9658) == 0x651F_2550
    ensures Eight(0x651F_2569) == 0x340B_C6D9
  {
  }

  lemma NothingAbsorbed()
    ensures Register([]) == 0xFFFF_FFFF
  {
  }

  /** The check value every catalogue gives for this CRC: that of the digits 1 to 9. */
  lemma CheckValue()
    ensures Crc32([0x31, 0x32, 0x33, 0x34, 0x35, 0x36, 0x37, 0x38, 0x39]) == 0xCBF4_3926
  {
    hide Register, Eight;
    NothingAbsorbed();
    DigitSteps();
    assert DIGITS[..0] == [];
    AbsorbDigit(0, 0xFFFF_FFFF, 0xFFFF_FFCE, 0x7C23_1048);
    AbsorbDigit(1, 0x7C23_1048, 0x7C23_107A, 0xB0AC_BB32);
    AbsorbDigit(2, 0xB0AC_BB32, 0xB0AC_BB01, 0x77B7_9C2D);
    AbsorbDigit(3, 0x77B7_9C2D, 0x77B7_9C19, 0x641C_1F5C);
    AbsorbDigit(4, 0x641C_1F5C, 0x641C_1F69, 0x340A_C5E3);
    AbsorbDigit(5, 0x340A_C5E3, 0x340A_C5D5, 0xF68D_2C9E);
    AbsorbDigit(6, 0xF68D_2C9E, 0xF68D_2CA9, 0xAFFC_9660);
    AbsorbDigit(7, 0xAFFC_9660, 0xAFFC_9658, 0x651F_2550);
    AbsorbDigit(8, 0x651F_2550, 0x651F_2569, 0x340B_C6D9);
    assert DIGITS[..9] == DIGITS;
  }
}
