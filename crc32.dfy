/** The reflected, table-driven CRC-32 of `calculateCRC32`: polynomial 0xEDB88320,
    register seeded with 0xFFFFFFFF, result XORed with 0xFFFFFFFF. This is the
    CRC-32 of ISO/IEC 13239 (HDLC), also the frame check sequence of IEEE 802.3
    clause 3.2.9. */
module Crc32 {
  import opened Bytes

  const POLY: u32 := 0xEDB8_8320
  const INIT: u32 := 0xFFFF_FFFF
  const XOR_OUT: u32 := 0xFFFF_FFFF

  /** One round of the reflected shift register. */
  function Shift(c: u32): u32
  {
    if c & 1 == 1 then POLY ^ (c >> 1) else c >> 1
  }

  /** `n` rounds of `Shift`. */
  function Shifts(c: u32, n: nat): u32
  {
    if n == 0 then c else Shift(Shifts(c, n - 1))
  }

  /** The value the table-building loop stores in `table[i]`. */
  function Entry(i: u32): u32
    requires i < 256
  {
    Shifts(i, 8)
  }

  /** The table slot `(crc ^ b) & 0xFF` that processing byte `b` reads. */
  function Index(crc: u32, b: u8): (k: u32)
    ensures k < 256
  {
    (crc ^ b as u32) & 0xFF
  }

  /** XOR of two registers, named so that the linearity lemmas below stay
      cheap for the solver. */
  function Xor(a: u32, b: u32): u32
  {
    a ^ b
  }

  /** One iteration of the byte loop: `table[(crc ^ b) & 0xFF] ^ (crc >> 8)`. */
  function Update(crc: u32, b: u8): u32
  {
    Xor(Entry(Index(crc, b)), crc >> 8)
  }

  /** The register after processing `s` from register value `crc`. */
  function Register(crc: u32, s: seq<u8>): u32
    decreases |s|
  {
    if |s| == 0 then crc else Register(Update(crc, s[0]), s[1..])
  }

  /** `calculateCRC32(data, length)` as a value. */
  function Checksum(s: seq<u8>): u32
  {
    Register(INIT, s) ^ XOR_OUT
  }

  /** The zero-length input checksums to `0xFFFFFFFF ^ 0xFFFFFFFF`. */
  lemma EmptyChecksum()
    ensures Checksum([]) == 0
  {
  }

  /** The register loop composes over concatenation. */
  lemma {:induction false} RegisterAppend(crc: u32, a: seq<u8>, b: seq<u8>)
    ensures Register(crc, a + b) == Register(Register(crc, a), b)
    decreases |a|
  {
    if |a| == 0 {
      assert a + b == b;
    } else {
      assert (a + b)[0] == a[0];
      assert (a + b)[1..] == a[1..] + b;
      RegisterAppend(Update(crc, a[0]), a[1..], b);
    }
  }

  lemma RegisterSnoc(crc: u32, s: seq<u8>, x: u8)
    ensures Register(crc, s + [x]) == Update(Register(crc, s), x)
  {
    RegisterAppend(crc, s, [x]);
    assert Register(Register(crc, s), [x]) == Register(Update(Register(crc, s), x), []);
  }

  // ---------------------------------------------------------------------------
  // Reference: the bit-at-a-time reflected CRC-32 of IEEE 802.3 clause 3.2.9.
  // Each byte is XORed into the low end of the register, then the register is
  // shifted right eight times, XORing in the polynomial when a 1 falls out.

  function BitUpdate(crc: u32, b: u8): u32
  {
    Shifts(crc ^ b as u32, 8)
  }

  function BitRegister(crc: u32, s: seq<u8>): u32
    decreases |s|
  {
    if |s| == 0 then crc else BitRegister(BitUpdate(crc, s[0]), s[1..])
  }

  function ReferenceCrc32(s: seq<u8>): u32
  {
    BitRegister(INIT, s) ^ XOR_OUT
  }

  lemma XorCommutes(a: u32, b: u32)
    ensures Xor(a, b) == Xor(b, a)
  {
  }

  lemma ShiftXorOddOdd(a: u32, b: u32)
    requires a & 1 == 1 && b & 1 == 1
    ensures Shift(Xor(a, b)) == Xor(Shift(a), Shift(b))
  {
    assert (a ^ b) & 1 == 0;
    assert (a ^ b) >> 1 == (POLY ^ (a >> 1)) ^ (POLY ^ (b >> 1));
  }

  lemma ShiftXorOddEven(a: u32, b: u32)
    requires a & 1 == 1 && b & 1 == 0
    ensures Shift(Xor(a, b)) == Xor(Shift(a), Shift(b))
  {
    assert (a ^ b) & 1 == 1;
    assert POLY ^ ((a ^ b) >> 1) == (POLY ^ (a >> 1)) ^ (b >> 1);
  }

  lemma ShiftXorEvenEven(a: u32, b: u32)
    requires a & 1 == 0 && b & 1 == 0
    ensures Shift(Xor(a, b)) == Xor(Shift(a), Shift(b))
  {
    assert (a ^ b) & 1 == 0;
    assert (a ^ b) >> 1 == (a >> 1) ^ (b >> 1);
  }

  /** `Shift` is linear over GF(2). */
  lemma ShiftXor(a: u32, b: u32)
    ensures Shift(Xor(a, b)) == Xor(Shift(a), Shift(b))
  {
    if a & 1 == 1 {
      if b & 1 == 1 { ShiftXorOddOdd(a, b); } else { ShiftXorOddEven(a, b); }
    } else if b & 1 == 1 {
      ShiftXorOddEven(b, a);
      XorCommutes(a, b);
      XorCommutes(Shift(a), Shift(b));
    } else {
      ShiftXorEvenEven(a, b);
    }
  }

  /** So are `n` rounds of it. */
  lemma {:induction false} ShiftsXor(a: u32, b: u32, n: nat)
    ensures Shifts(Xor(a, b), n) == Xor(Shifts(a, n), Shifts(b, n))
  {
    if n > 0 {
      ShiftsXor(a, b, n - 1);
      ShiftXor(Shifts(a, n - 1), Shifts(b, n - 1));
    }
  }

  /** A round on a register whose low bit is clear is a plain shift. */
  lemma EvenStep(h: u32, k: nat, v: u32)
    requires Shifts(h, k) == v && v & 1 == 0
    ensures Shifts(h, k + 1) == v >> 1
  {
  }

  lemma EvenRounds(h: u32, v1: u32, v2: u32, v3: u32, v4: u32, v5: u32, v6: u32, v7: u32, v8: u32)
    requires h & 1 == 0 && v1 == h >> 1 && v1 & 1 == 0 && v2 == v1 >> 1 && v2 & 1 == 0
    requires v3 == v2 >> 1 && v3 & 1 == 0 && v4 == v3 >> 1 && v4 & 1 == 0
    requires v5 == v4 >> 1 && v5 & 1 == 0 && v6 == v5 >> 1 && v6 & 1 == 0
    requires v7 == v6 >> 1 && v7 & 1 == 0 && v8 == v7 >> 1
    ensures Shifts(h, 8) == v8
  {
    EvenStep(h, 0, h);
    EvenStep(h, 1, v1);
    EvenStep(h, 2, v2);
    EvenStep(h, 3, v3);
    EvenStep(h, 4, v4);
    EvenStep(h, 5, v5);
    EvenStep(h, 6, v6);
    EvenStep(h, 7, v7);
  }

  lemma LowByteClearBits(h: u32)
    requires h & 0xFF == 0
    ensures h & 1 == 0 && (h >> 1) & 1 == 0 && ((h >> 1) >> 1) & 1 == 0
    ensures (((h >> 1) >> 1) >> 1) & 1 == 0
    ensures ((((h >> 1) >> 1) >> 1) >> 1) & 1 == 0
    ensures (((((h >> 1) >> 1) >> 1) >> 1) >> 1) & 1 == 0
    ensures ((((((h >> 1) >> 1) >> 1) >> 1) >> 1) >> 1) & 1 == 0
    ensures (((((((h >> 1) >> 1) >> 1) >> 1) >> 1) >> 1) >> 1) & 1 == 0
    ensures ((((((((h >> 1) >> 1) >> 1) >> 1) >> 1) >> 1) >> 1) >> 1) == h >> 8
  {
  }

  /** A register whose low byte is clear only shifts during the eight rounds. */
  lemma HighBitsShift(h: u32)
    requires h & 0xFF == 0
    ensures Shifts(h, 8) == h >> 8
  {
    LowByteClearBits(h);
    var v1 := h >> 1;
    var v2 := v1 >> 1;
    var v3 := v2 >> 1;
    var v4 := v3 >> 1;
    var v5 := v4 >> 1;
    var v6 := v5 >> 1;
    var v7 := v6 >> 1;
    EvenRounds(h, v1, v2, v3, v4, v5, v6, v7, v7 >> 1);
  }

  lemma SplitLowByte(crc: u32, b: u8)
    ensures crc ^ b as u32 == Xor(Index(crc, b), crc & 0xFFFF_FF00)
  {
  }

  lemma HighByteBits(crc: u32)
    ensures (crc & 0xFFFF_FF00) & 0xFF == 0
    ensures (crc & 0xFFFF_FF00) >> 8 == crc >> 8
  {
  }

  lemma BitUpdateSplit(crc: u32, b: u8)
    ensures BitUpdate(crc, b) == Shifts(Xor(Index(crc, b), crc & 0xFFFF_FF00), 8)
  {
    SplitLowByte(crc, b);
  }

  lemma HighPart(crc: u32)
    ensures Shifts(crc & 0xFFFF_FF00, 8) == crc >> 8
  {
    HighByteBits(crc);
    HighBitsShift(crc & 0xFFFF_FF00);
  }

  /** A table lookup performs the eight bit rounds at once. */
  lemma UpdateIsBitUpdate(crc: u32, b: u8)
    ensures Update(crc, b) == BitUpdate(crc, b)
  {
    BitUpdateSplit(crc, b);
    ShiftsXor(Index(crc, b), crc & 0xFFFF_FF00, 8);
    HighPart(crc);
  }

  lemma {:induction false} RegisterIsBitRegister(crc: u32, s: seq<u8>)
    ensures Register(crc, s) == BitRegister(crc, s)
    decreases |s|
  {
    if |s| > 0 {
      UpdateIsBitUpdate(crc, s[0]);
      RegisterIsBitRegister(Update(crc, s[0]), s[1..]);
    }
  }

  /** The table-driven checksum is the standard bitwise CRC-32. */
  lemma ChecksumIsReference(s: seq<u8>)
    ensures Checksum(s) == ReferenceCrc32(s)
  {
    RegisterIsBitRegister(INIT, s);
  }

  // ---------------------------------------------------------------------------
  // Error detection: a changed byte always changes the checksum.

  /** A register whose low bit is set and one whose low bit is clear never
      meet after a round: the polynomial's top bit is set, and a plain shift
      leaves the top bit clear. */
  lemma MixedParityDiffers(u: u32, v: u32)
    requires u & 1 == 1 && v & 1 == 0
    ensures Shift(u) != Shift(v)
  {
    assert (POLY ^ (u >> 1)) >> 31 == 1;
    assert (v >> 1) >> 31 == 0;
  }

  /** A round never merges two registers. */
  lemma ShiftInjective(u: u32, v: u32)
    ensures Shift(u) == Shift(v) ==> u == v
  {
    if u & 1 == 1 && v & 1 == 0 {
      MixedParityDiffers(u, v);
    } else if u & 1 == 0 && v & 1 == 1 {
      MixedParityDiffers(v, u);
    }
  }

  lemma {:induction false} ShiftsInjective(u: u32, v: u32, n: nat)
    ensures Shifts(u, n) == Shifts(v, n) ==> u == v
  {
    if n > 0 {
      ShiftInjective(Shifts(u, n - 1), Shifts(v, n - 1));
      ShiftsInjective(u, v, n - 1);
    }
  }

  /** One byte step is one-to-one in the register and in the byte. */
  lemma UpdateInjective(c1: u32, x1: u8, c2: u32, x2: u8)
    ensures Update(c1, x1) == Update(c2, x2) ==> c1 ^ x1 as u32 == c2 ^ x2 as u32
  {
    UpdateIsBitUpdate(c1, x1);
    UpdateIsBitUpdate(c2, x2);
    ShiftsInjective(c1 ^ x1 as u32, c2 ^ x2 as u32, 8);
  }

  /** Different registers stay different whatever bytes follow. */
  lemma {:induction false} RegisterInjective(c1: u32, c2: u32, s: seq<u8>)
    ensures Register(c1, s) == Register(c2, s) ==> c1 == c2
    decreases |s|
  {
    if |s| > 0 {
      RegisterInjective(Update(c1, s[0]), Update(c2, s[0]), s[1..]);
      UpdateInjective(c1, s[0], c2, s[0]);
    }
  }

  /** Changing any one byte of the input changes the checksum. */
  lemma ByteChangeDetected(s: seq<u8>, p: nat, y: u8)
    requires p < |s| && y != s[p]
    ensures Checksum(s[p := y]) != Checksum(s)
  {
    var t := s[p := y];
    var a, b := s[..p], s[p + 1..];
    assert s == a + [s[p]] + b;
    assert t == a + [y] + b;
    RegisterAppend(INIT, a + [s[p]], b);
    RegisterAppend(INIT, a + [y], b);
    RegisterSnoc(INIT, a, s[p]);
    RegisterSnoc(INIT, a, y);
    var r := Register(INIT, a);
    UpdateInjective(r, y, r, s[p]);
    assert y as u32 != s[p] as u32;
    RegisterInjective(Update(r, y), Update(r, s[p]), b);
  }

  /** Flipping any single bit of the input changes the checksum. */
  lemma SingleBitFlipDetected(s: seq<u8>, p: nat, j: bv8)
    requires p < |s| && j < 8
    ensures Checksum(s[p := s[p] ^ (1 << j)]) != Checksum(s)
  {
    ByteChangeDetected(s, p, s[p] ^ (1 << j));
  }

  /** The table entries and register values met while checksumming "123456789". */
  lemma CheckValueSteps()
    ensures Update(INIT, 0x31) == 0x7C23_1048
    ensures Update(0x7C23_1048, 0x32) == 0xB0AC_BB32
    ensures Update(0xB0AC_BB32, 0x33) == 0x77B7_9C2D
    ensures Update(0x77B7_9C2D, 0x34) == 0x641C_1F5C
    ensures Update(0x641C_1F5C, 0x35) == 0x340A_C5E3
    ensures Update(0x340A_C5E3, 0x36) == 0xF68D_2C9E
    ensures Update(0xF68D_2C9E, 0x37) == 0xAFFC_9660
    ensures Update(0xAFFC_9660, 0x38) == 0x651F_2550
    ensures Update(0x651F_2550, 0x39) == 0x340B_C6D9
  {
    assert Shifts(206, 8) == 0x7CDC_EFB7;
    assert Shifts(122, 8) == 0xB0D0_9822;
    assert Shifts(1, 8) == 0x7707_3096;
    assert Shifts(25, 8) == 0x646B_A8C0;
    assert Shifts(105, 8) == 0x346E_D9FC;
    assert Shifts(213, 8) == 0xF6B9_265B;
    assert Shifts(169, 8) == 0xAF0A_1B4C;
    assert Shifts(88, 8) == 0x65B0_D9C6;
  }

  /** The standard check value of CRC-32: the checksum of the ASCII digits "123456789". */
  lemma CheckValue()
    ensures Checksum([0x31, 0x32, 0x33, 0x34, 0x35, 0x36, 0x37, 0x38, 0x39]) == 0xCBF4_3926
  {
    var s: seq<u8> := [0x31, 0x32, 0x33, 0x34, 0x35, 0x36, 0x37, 0x38, 0x39];
    CheckValueSteps();
    assert Register(INIT, s) == Register(0x7C23_1048, s[1..]);
    assert Register(0x7C23_1048, s[1..]) == Register(0xB0AC_BB32, s[2..]);
    assert Register(0xB0AC_BB32, s[2..]) == Register(0x77B7_9C2D, s[3..]);
    assert Register(0x77B7_9C2D, s[3..]) == Register(0x641C_1F5C, s[4..]);
    assert Register(0x641C_1F5C, s[4..]) == Register(0x340A_C5E3, s[5..]);
    assert Register(0x340A_C5E3, s[5..]) == Register(0xF68D_2C9E, s[6..]);
    assert Register(0xF68D_2C9E, s[6..]) == Register(0xAFFC_9660, s[7..]);
    assert Register(0xAFFC_9660, s[7..]) == Register(0x651F_2550, s[8..]);
    assert Register(0x651F_2550, s[8..]) == Register(0x340B_C6D9, s[9..]);
  }

  /** The inner loop of the table construction: eight register rounds on `i`. */
  method TableEntry(i: u32) returns (c: u32)
    requires i < 256
    ensures c == Entry(i)
  {
    c := i;
    for j := 0 to 8
      invariant c == Shifts(i, j)
    {
      c := Shift(c);
    }
  }

  /** The function-local statics of `calculateCRC32`: the lookup table and the
      flag that says it has been built. */
  class Crc32Table {
    var table: array<u32>
    var initialized: bool

    ghost predicate Valid()
      reads this, table
    {
      table.Length == 256 &&
      (initialized ==> forall i: u32 | i < 256 :: table[i] == Entry(i))
    }

    /** Static storage before the first call: zeroed, not yet built. */
    constructor ()
      ensures Valid() && !initialized && fresh(table)
      ensures table[..] == seq(256, _ => 0)
    {
      table := new u32[256](_ => 0);
      initialized := false;
    }

    /** Slots `0 .. n-1` hold their final values. */
    ghost predicate Filled(n: u32)
      reads this, table
      requires table.Length == 256 && n <= 256
    {
      forall k: u32 | k < n :: table[k] == Entry(k)
    }

    lemma FilledNext(n: u32)
      requires table.Length == 256 && n < 256
      requires Filled(n) && table[n] == Entry(n)
      ensures Filled(n + 1)
    {
      forall k: u32 | k < n + 1
        ensures table[k] == Entry(k)
      {
        if k != n {
          assert k < n;
        }
      }
    }

    /** The nested loops that fill the table on the first call. */
    method BuildTable()
      requires table.Length == 256
      modifies table
      ensures Filled(256)
    {
      var i: u32 := 0;
      while i < 256
        invariant i <= 256
        invariant Filled(i)
        decreases 256 - i
      {
        var c := TableEntry(i);
        table[i] := c;
        FilledNext(i);
        i := i + 1;
      }
    }

    /** `calculateCRC32`: builds the table on the first call only, then runs the
        byte loop over the input. */
    method Calculate(data: seq<u8>) returns (crc: u32)
      requires Valid()
      modifies this`initialized, table
      ensures Valid() && initialized
      ensures old(initialized) ==> table[..] == old(table[..])
      ensures crc == Checksum(data)
    {
      if !initialized {
        BuildTable();
        initialized := true;
      }
      crc := INIT;
      for i := 0 to |data|
        invariant crc == Register(INIT, data[..i])
        modifies {}
      {
        crc := Xor(table[Index(crc, data[i])], crc >> 8);
        RegisterSnoc(INIT, data[..i], data[i]);
        assert data[..i + 1] == data[..i] + [data[i]];
      }
      assert data[..|data|] == data;
      crc := crc ^ XOR_OUT;
    }
  }
}
